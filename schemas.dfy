/** The request and response shapes of the profile API and the codec that
    turns the stored, comma-joined interests string back into a list. */
module Schemas {

  type Id = int

  datatype Option<T> = None | Some(value: T)

  /** One stored profile row. Interests are kept as a single string whose
      tokens are separated by `Delimiter`. */
  datatype Record = Record(name: string, age: int, gender: string, email: string,
                           city: string, interests: string)

  /** The body of a creation request, after its interests were coerced to a list. */
  datatype UserCreate = UserCreate(name: string, age: int, gender: string, email: string,
                                   city: string, interests: seq<string>)

  /** The body of an update request: every field is optional and absent by default. */
  datatype UserUpdate = UserUpdate(name: Option<string>, age: Option<int>,
                                   gender: Option<string>, email: Option<string>,
                                   city: Option<string>, interests: Option<seq<string>>)

  /** The profile as the API returns it: with its id and interests as a list. */
  datatype User = User(id: Id, name: string, age: int, gender: string, email: string,
                       city: string, interests: seq<string>)

  /** What the interests validators receive: either raw text or an already-built list. */
  datatype InterestsValue = Text(text: string) | Items(items: seq<string>)

  const Delimiter: char := ','

  /** An update body that supplies no field. */
  const NoChanges: UserUpdate := UserUpdate(None, None, None, None, None, None)

  function CountDelimiters(s: string): nat
  {
    if |s| == 0 then 0
    else (if s[0] == Delimiter then 1 else 0) + CountDelimiters(s[1..])
  }

  /** `s.split(",")`: the maximal delimiter-free pieces of `s`, in order. */
  function Split(s: string): (r: seq<string>)
    ensures |r| == CountDelimiters(s) + 1
    ensures forall t :: t in r ==> Delimiter !in t
  {
    if |s| == 0 then [""]
    else
      var rest := Split(s[1..]);
      if s[0] == Delimiter then [""] + rest
      else
        assert rest[0] in rest;
        [[s[0]] + rest[0]] + rest[1..]
  }

  /** `",".join(xs)`. */
  function Join(xs: seq<string>): (s: string)
    ensures (forall t :: t in xs ==> Delimiter !in t) ==>
      CountDelimiters(s) == if |xs| == 0 then 0 else |xs| - 1
  {
    if |xs| == 0 then ""
    else if |xs| == 1 then
      assert xs[0] in xs;
      if Delimiter !in xs[0] then CountDelimitersOfToken(xs[0]); xs[0] else xs[0]
    else
      var s := xs[0] + [Delimiter] + Join(xs[1..]);
      if forall t :: t in xs ==> Delimiter !in t then
        assert xs[0] in xs;
        assert forall t :: t in xs[1..] ==> t in xs;
        CountDelimitersOfConcat(xs[0] + [Delimiter], Join(xs[1..]));
        CountDelimitersOfConcat(xs[0], [Delimiter]);
        CountDelimitersOfToken(xs[0]);
        s
      else s
  }

  /** Delimiters of a concatenation are those of its two parts. */
  lemma {:induction false} CountDelimitersOfConcat(a: string, b: string)
    ensures CountDelimiters(a + b) == CountDelimiters(a) + CountDelimiters(b)
  {
    if |a| > 0 {
      assert (a + b)[1..] == a[1..] + b;
      CountDelimitersOfConcat(a[1..], b);
    } else {
      assert a + b == b;
    }
  }

  /** A delimiter-free string counts no delimiters. */
  lemma {:induction false} CountDelimitersOfToken(t: string)
    requires Delimiter !in t
    ensures CountDelimiters(t) == 0
  {
    if |t| > 0 {
      CountDelimitersOfToken(t[1..]);
    }
  }

  /** Joining a head token onto a nonempty tail puts one delimiter between them. */
  lemma {:induction false} JoinCons(h: string, t: seq<string>)
    requires |t| >= 1
    ensures Join([h] + t) == h + [Delimiter] + Join(t)
  {
    assert ([h] + t)[1..] == t;
  }

  /** Prepending a character to the first token prepends it to the joined string. */
  lemma {:induction false} JoinConsChar(c: char, xs: seq<string>)
    requires |xs| >= 1
    ensures Join([[c] + xs[0]] + xs[1..]) == [c] + Join(xs)
  {
    if |xs| == 1 {
      assert [[c] + xs[0]] + xs[1..] == [[c] + xs[0]];
    } else {
      JoinCons([c] + xs[0], xs[1..]);
      JoinCons(xs[0], xs[1..]);
      assert [xs[0]] + xs[1..] == xs;
    }
  }

  /** Joining the pieces of a split gives back the original string. */
  lemma {:induction false} JoinOfSplit(s: string)
    ensures Join(Split(s)) == s
  {
    if |s| > 0 {
      JoinOfSplit(s[1..]);
      var rest := Split(s[1..]);
      if s[0] == Delimiter {
        assert Split(s) == [""] + rest;
        assert ([""] + rest)[1..] == rest;
        assert s == [Delimiter] + s[1..];
      } else {
        JoinConsChar(s[0], rest);
        assert s == [s[0]] + s[1..];
      }
    }
  }

  /** A delimiter-free string splits into itself alone. */
  lemma {:induction false} SplitOfToken(t: string)
    requires Delimiter !in t
    ensures Split(t) == [t]
  {
    if |t| > 0 {
      SplitOfToken(t[1..]);
      assert t == [t[0]] + t[1..];
    }
  }

  /** A delimiter-free token followed by the delimiter splits off as one piece. */
  lemma {:induction false} SplitOfTokenThenRest(t: string, rest: string)
    requires Delimiter !in t
    ensures Split(t + [Delimiter] + rest) == [t] + Split(rest)
  {
    var s := t + [Delimiter] + rest;
    if |t| == 0 {
      assert s == [Delimiter] + rest;
      assert s[1..] == rest;
    } else {
      assert s[0] == t[0];
      assert s[1..] == t[1..] + [Delimiter] + rest;
      SplitOfTokenThenRest(t[1..], rest);
      assert [t[0]] + t[1..] == t;
    }
  }

  /** Splitting the join of a nonempty list of delimiter-free tokens gives the list back. */
  lemma {:induction false} SplitOfJoin(xs: seq<string>)
    requires |xs| >= 1
    requires forall t :: t in xs ==> Delimiter !in t
    ensures Split(Join(xs)) == xs
  {
    if |xs| == 1 {
      SplitOfToken(xs[0]);
    } else {
      assert xs[0] in xs;
      assert forall t :: t in xs[1..] ==> t in xs;
      SplitOfJoin(xs[1..]);
      SplitOfTokenThenRest(xs[0], Join(xs[1..]));
      assert [xs[0]] + xs[1..] == xs;
    }
  }

  /** The empty list does not survive the round trip: it comes back as one empty token. */
  lemma {:induction false} EmptyListComesBackAsEmptyToken()
    ensures Join([]) == ""
    ensures Split(Join([])) == [""]
  {
  }

  /** A token holding the delimiter does not survive the round trip: it is cut in two. */
  lemma DelimiterInTokenIsCut()
    ensures Split(Join(["a,b"])) == ["a", "b"]
  {
    assert Join(["a,b"]) == "a,b";
    assert Split("b") == ["b"] by { SplitOfToken("b"); }
    assert "a,b" == "a" + [Delimiter] + "b";
    SplitOfTokenThenRest("a", "b");
  }

  /** The `join_interests` / `split_interests` validators: text is split on the
      delimiter, a list is passed through unchanged. */
  function CoerceInterests(v: InterestsValue): (r: seq<string>)
    ensures v.Text? ==> |r| == CountDelimiters(v.text) + 1 && Join(r) == v.text
    ensures v.Text? ==> forall t :: t in r ==> Delimiter !in t
    ensures v.Items? ==> r == v.items
  {
    match v
    case Text(s) => JoinOfSplit(s); Split(s)
    case Items(xs) => xs
  }

  /** The response view of a stored row: the row's interests text goes through
      the `split_interests` validator. */
  function ToUser(id: Id, r: Record): (u: User)
    ensures u.id == id && u.name == r.name && u.age == r.age && u.gender == r.gender
    ensures u.email == r.email && u.city == r.city
    ensures Join(u.interests) == r.interests && |u.interests| >= 1
    ensures forall t :: t in u.interests ==> Delimiter !in t
  {
    User(id, r.name, r.age, r.gender, r.email, r.city, CoerceInterests(Text(r.interests)))
  }
}
