/** The compatibility filter of `find_matches`: same city, an overlapping
    interest, a different gender token under ASCII lowering, and an age
    within ten years either way. */
module Matching {
  import opened Schemas
  import opened Sequences

  /** SQL `lower` on one character: ASCII upper-case letters only. */
  function LowerChar(c: char): (r: char)
    ensures !('A' <= r <= 'Z')
    ensures r != c <==> 'A' <= c <= 'Z'
    ensures 'A' <= c <= 'Z' ==> 'a' <= r <= 'z' && r as int - c as int == 'a' as int - 'A' as int
  {
    if 'A' <= c <= 'Z' then (c as int + 32) as char else c
  }

  /** SQL `lower` on a string. */
  function Lower(s: string): (r: string)
    ensures |r| == |s|
    ensures forall i :: 0 <= i < |s| ==> r[i] == LowerChar(s[i])
  {
    if |s| == 0 then "" else [LowerChar(s[0])] + Lower(s[1..])
  }

  /** `a` and `b` spell the same word up to the case of ASCII letters. */
  ghost predicate SameIgnoringCase(a: string, b: string)
  {
    |a| == |b| && forall i :: 0 <= i < |a| ==> LowerChar(a[i]) == LowerChar(b[i])
  }

  /** `needle` occurs in `hay` starting at index `i`. */
  ghost predicate OccursAt(hay: string, needle: string, i: int)
  {
    0 <= i && i + |needle| <= |hay| && hay[i..i + |needle|] == needle
  }

  /** The `LIKE '%needle%'` test, read as a plain substring test. */
  function Contains(hay: string, needle: string): (b: bool)
    ensures b <==> exists i :: OccursAt(hay, needle, i)
  {
    if |needle| > |hay| then false
    else if hay[..|needle|] == needle then
      assert OccursAt(hay, needle, 0);
      true
    else
      assert !OccursAt(hay, needle, 0);
      OccursInTail(hay, needle);
      Contains(hay[1..], needle)
  }

  /** Occurrences in the tail of `hay` are the occurrences in `hay` past index 0. */
  lemma OccursInTail(hay: string, needle: string)
    requires |hay| >= 1
    ensures forall i :: OccursAt(hay[1..], needle, i) ==> OccursAt(hay, needle, i + 1)
    ensures forall i :: OccursAt(hay, needle, i) && i >= 1 ==> OccursAt(hay[1..], needle, i - 1)
  {
    forall i | OccursAt(hay[1..], needle, i)
      ensures OccursAt(hay, needle, i + 1)
    {
      assert hay[1..][i..i + |needle|] == hay[i + 1..i + 1 + |needle|];
    }
    forall i | OccursAt(hay, needle, i) && i >= 1
      ensures OccursAt(hay[1..], needle, i - 1)
    {
      assert hay[1..][i - 1..i - 1 + |needle|] == hay[i..i + |needle|];
    }
  }

  /** The `or_` of one `LIKE` test per token. */
  function AnyTokenOccurs(tokens: seq<string>, hay: string): (b: bool)
    ensures b <==> exists k :: 0 <= k < |tokens| && Contains(hay, tokens[k])
  {
    if |tokens| == 0 then false
    else Contains(hay, tokens[0]) || AnyTokenOccurs(tokens[1..], hay)
  }

  /** The filter of `find_matches`, with `subject` the profile whose matches
      are sought; it is the city, interest, gender and age test read declaratively. */
  function IsMatch(subject: Record, candidate: Record): (b: bool)
    ensures b <==>
      && candidate.city == subject.city
      && (exists t, i :: t in Split(subject.interests) && OccursAt(candidate.interests, t, i))
      && !SameIgnoringCase(candidate.gender, subject.gender)
      && subject.age - 10 <= candidate.age <= subject.age + 10
  {
    InterestTestMeaning(Split(subject.interests), candidate.interests);
    LowerEqualIffSameIgnoringCase(candidate.gender, subject.gender);
    && candidate.city == subject.city
    && AnyTokenOccurs(Split(subject.interests), candidate.interests)
    && Lower(candidate.gender) != Lower(subject.gender)
    && candidate.age >= subject.age - 10
    && candidate.age <= subject.age + 10
  }

  /** Two strings lower to the same string exactly when they agree up to ASCII case. */
  lemma LowerEqualIffSameIgnoringCase(a: string, b: string)
    ensures Lower(a) == Lower(b) <==> SameIgnoringCase(a, b)
  {
    if SameIgnoringCase(a, b) {
      assert forall i :: 0 <= i < |a| ==> Lower(a)[i] == Lower(b)[i];
    }
  }

  /** The `or_` of the `LIKE` tests passes exactly when some token occurs somewhere. */
  lemma InterestTestMeaning(tokens: seq<string>, hay: string)
    ensures AnyTokenOccurs(tokens, hay) <==> exists t, i :: t in tokens && OccursAt(hay, t, i)
  {
    if AnyTokenOccurs(tokens, hay) {
      var k :| 0 <= k < |tokens| && Contains(hay, tokens[k]);
      var i :| OccursAt(hay, tokens[k], i);
      assert tokens[k] in tokens;
    }
    if exists t, i :: t in tokens && OccursAt(hay, t, i) {
      var t, i :| t in tokens && OccursAt(hay, t, i);
      var k :| 0 <= k < |tokens| && tokens[k] == t;
      assert Contains(hay, tokens[k]);
    }
  }

  /** No profile matches itself: its gender token lowers to itself. */
  lemma NeverMatchesItself(r: Record)
    ensures !IsMatch(r, r)
  {
  }

  /** A subject stored with no interests has the single token "", which occurs
      in every string, so the interest test passes for every candidate. */
  lemma NoInterestsOverlapEveryone(subject: Record, candidate: Record)
    requires subject.interests == ""
    ensures AnyTokenOccurs(Split(subject.interests), candidate.interests)
  {
    assert Split(subject.interests) == [""];
    assert OccursAt(candidate.interests, "", 0);
    assert Contains(candidate.interests, "");
  }

  /** The ids among `ids` whose records match `subject`, in their order in `ids`. */
  function MatchingIds(ids: seq<Id>, m: map<Id, Record>, subject: Record): (r: seq<Id>)
    requires forall x :: x in ids ==> x in m
    ensures |r| <= |ids|
    ensures forall x :: x in r <==> x in ids && IsMatch(subject, m[x])
    ensures SubsequenceOf(r, ids)
    ensures Distinct(ids) ==> Distinct(r)
  {
    if |ids| == 0 then []
    else
      var rest := MatchingIds(ids[1..], m, subject);
      assert forall x :: x in ids <==> x == ids[0] || x in ids[1..];
      if IsMatch(subject, m[ids[0]]) then
        assert ([ids[0]] + rest)[1..] == rest;
        assert Distinct(ids) ==> ids[0] !in ids[1..];
        [ids[0]] + rest
      else rest
  }

  /** A matched interest may be part of a longer word: the token "art" matches "cart". */
  lemma SubstringMatchesInsideWords()
    ensures Contains("cart", "art")
    ensures AnyTokenOccurs(Split("art"), "cart")
  {
    assert OccursAt("cart", "art", 1);
    SplitOfToken("art");
  }

  /** When the subject's interests are two tokens and the candidate's start
      with the second one, the interest test passes. */
  lemma {:induction false} SecondTokenOverlaps(subject: Record, candidate: Record, first: string, second: string)
    requires Delimiter !in first && Delimiter !in second
    requires subject.interests == first + [Delimiter] + second
    requires |second| <= |candidate.interests| && candidate.interests[..|second|] == second
    ensures AnyTokenOccurs(Split(subject.interests), candidate.interests)
  {
    SplitOfToken(second);
    SplitOfTokenThenRest(first, second);
    var tokens := Split(subject.interests);
    assert tokens == [first, second];
    assert OccursAt(candidate.interests, second, 0);
    assert Contains(candidate.interests, tokens[1]);
  }

  /** B (Austin, male, 35, music and travel) matches A (Austin, female, 30, art and music). */
  lemma {:induction false} ScenarioSharedInterestMatches(a: Record, b: Record)
    requires a == Record("A", 30, "female", "a@x.com", "Austin", "art,music")
    requires b == Record("B", 35, "male", "b@x.com", "Austin", "music,travel")
    ensures IsMatch(a, b)
  {
    assert a.interests == "art" + [Delimiter] + "music";
    assert b.interests[..5] == "music";
    SecondTokenOverlaps(a, b, "art", "music");
    assert |Lower(b.gender)| != |Lower(a.gender)|;
  }

  /** C (Austin, male, 50, music) does not match A: the ages are 20 years apart. */
  lemma {:induction false} ScenarioAgeGapExcludes(a: Record, c: Record)
    requires a == Record("A", 30, "female", "a@x.com", "Austin", "art,music")
    requires c == Record("C", 50, "male", "c@x.com", "Austin", "music")
    ensures !IsMatch(a, c)
  {
    assert c.age > a.age + 10;
  }
}
