/** Splitting text at slashes and joining it again. */
module PathText {
  /** Rust's `split('/')`: never empty. */
  function Split(s: string): (cs: seq<string>)
    ensures cs != []
  {
    if s == "" then [""]
    else
      var rest := Split(s[1..]);
      if s[0] == '/' then [""] + rest else [[s[0]] + rest[0]] + rest[1..]
  }

  function Join(cs: seq<string>): string {
    if cs == [] then "" else if |cs| == 1 then cs[0] else cs[0] + "/" + Join(cs[1..])
  }

  function NonEmpty(cs: seq<string>): seq<string> {
    if cs == [] then [] else (if cs[0] == "" then [] else [cs[0]]) + NonEmpty(cs[1..])
  }

  /** The components of a path: what is between its slashes. */
  function Components(s: string): seq<string> {
    NonEmpty(Split(s))
  }

  /** Text that can be one component. */
  predicate Word(s: string) {
    s != "" && '/' !in s
  }

  predicate Words(cs: seq<string>) {
    forall i :: 0 <= i < |cs| ==> Word(cs[i])
  }

  lemma JoinCons(first: string, rest: seq<string>)
    requires rest != []
    ensures Join([first] + rest) == first + "/" + Join(rest)
  {
    assert ([first] + rest)[1..] == rest;
  }

  /** A character in front of the first component is one in front of the joined text. */
  lemma JoinPrepend(c: char, first: string, more: seq<string>)
    ensures Join([[c] + first] + more) == [c] + Join([first] + more)
  {
    if more == [] {
      assert [[c] + first] + more == [[c] + first] && [first] + more == [first];
    } else {
      JoinCons([c] + first, more);
      JoinCons(first, more);
      Regroup(c, first, Join(more));
    }
  }

  lemma Regroup(c: char, first: string, rest: string)
    ensures ([c] + first) + "/" + rest == [c] + (first + "/" + rest)
  {
  }

  lemma {:induction false} JoinSplit(s: string)
    ensures Join(Split(s)) == s
  {
    if s != "" {
      var rest := Split(s[1..]);
      JoinSplit(s[1..]);
      if s[0] == '/' {
        JoinCons("", rest);
      } else {
        JoinPrepend(s[0], rest[0], rest[1..]);
        assert [rest[0]] + rest[1..] == rest;
      }
      assert s == [s[0]] + s[1..];
    }
  }

  /** One more character in front starts a component or extends the first one. */
  function Extend(c: char, cs: seq<string>): seq<string>
    requires cs != []
  {
    if c == '/' then [""] + cs else [[c] + cs[0]] + cs[1..]
  }

  lemma SplitCons(c: char, t: string)
    ensures Split([c] + t) == Extend(c, Split(t))
  {
    assert ([c] + t)[1..] == t;
  }

  lemma ExtendConcat(c: char, x: seq<string>, y: seq<string>)
    requires x != []
    ensures Extend(c, x + y) == Extend(c, x) + y
  {
    assert (x + y)[0] == x[0] && (x + y)[1..] == x[1..] + y;
  }

  lemma {:induction false} SplitAt(a: string, b: string)
    ensures Split(a + "/" + b) == Split(a) + Split(b)
  {
    if a == "" {
      assert a + "/" + b == ['/'] + b;
      SplitCons('/', b);
    } else {
      var tail := a[1..];
      SplitAt(tail, b);
      SplitCons(a[0], tail);
      SplitCons(a[0], tail + "/" + b);
      assert a == [a[0]] + tail && a + "/" + b == [a[0]] + (tail + "/" + b);
      ExtendConcat(a[0], Split(tail), Split(b));
    }
  }

  lemma {:induction false} SplitWord(s: string)
    requires '/' !in s
    ensures Split(s) == [s]
  {
    if s != "" {
      SplitWord(s[1..]);
      assert s == [s[0]] + s[1..];
    }
  }

  lemma {:induction false} SplitJoin(cs: seq<string>)
    requires cs != [] && Words(cs)
    ensures Split(Join(cs)) == cs
  {
    SplitWord(cs[0]);
    if |cs| > 1 {
      SplitJoin(cs[1..]);
      SplitAt(cs[0], Join(cs[1..]));
      assert cs == [cs[0]] + cs[1..];
    }
  }

  lemma {:induction false} NonEmptyWords(cs: seq<string>)
    requires forall i :: 0 <= i < |cs| ==> cs[i] != ""
    ensures NonEmpty(cs) == cs
  {
    if cs != [] {
      NonEmptyWords(cs[1..]);
      assert cs == [cs[0]] + cs[1..];
    }
  }

  lemma {:induction false} NonEmptyConcat(a: seq<string>, b: seq<string>)
    ensures NonEmpty(a + b) == NonEmpty(a) + NonEmpty(b)
  {
    if a == [] {
      assert a + b == b;
    } else {
      var tail := a[1..];
      NonEmptyConcat(tail, b);
      assert (a + b)[0] == a[0] && (a + b)[1..] == tail + b;
      AppendAssociates(if a[0] == "" then [] else [a[0]], NonEmpty(tail), NonEmpty(b));
    }
  }

  lemma AppendAssociates(a: seq<string>, b: seq<string>, c: seq<string>)
    ensures a + (b + c) == (a + b) + c
  {
  }

  /** Components are words, and words joined have themselves as components. */
  lemma ComponentsJoin(cs: seq<string>)
    requires Words(cs)
    ensures Components(Join(cs)) == cs
  {
    if cs == [] {
      assert NonEmpty([""]) == NonEmpty([""][1..]);
    } else {
      SplitJoin(cs);
      NonEmptyWords(cs);
    }
  }

  lemma {:induction false} SplitSlashFree(s: string)
    ensures forall i :: 0 <= i < |Split(s)| ==> '/' !in Split(s)[i]
  {
    if s != "" {
      SplitSlashFree(s[1..]);
    }
  }

  lemma {:induction false} NonEmptyKeeps(cs: seq<string>)
    requires forall i :: 0 <= i < |cs| ==> '/' !in cs[i]
    ensures Words(NonEmpty(cs))
  {
    if cs != [] {
      NonEmptyKeeps(cs[1..]);
    }
  }

  lemma ComponentsAreWords(s: string)
    ensures Words(Components(s))
  {
    SplitSlashFree(s);
    NonEmptyKeeps(Split(s));
  }

  lemma ComponentsAt(a: string, b: string)
    ensures Components(a + "/" + b) == Components(a) + Components(b)
  {
    SplitAt(a, b);
    NonEmptyConcat(Split(a), Split(b));
  }

  /** Joining two component lists. */
  lemma {:induction false} JoinConcat(a: seq<string>, b: seq<string>)
    requires a != [] && b != []
    ensures Join(a + b) == Join(a) + "/" + Join(b)
  {
    if |a| == 1 {
      assert (a + b)[1..] == b;
    } else {
      JoinConcat(a[1..], b);
      assert (a + b)[1..] == a[1..] + b;
      assert a[0] + "/" + (Join(a[1..]) + "/" + Join(b)) == (a[0] + "/" + Join(a[1..])) + "/" + Join(b);
    }
  }

  /** Every character of a component is one of the text. */
  lemma {:induction false} SplitChars(s: string, c: char)
    requires c !in s
    ensures forall i :: 0 <= i < |Split(s)| ==> c !in Split(s)[i]
  {
    if s != "" {
      SplitChars(s[1..], c);
    }
  }

  lemma {:induction false} NonEmptyMembers(cs: seq<string>)
    ensures forall x :: x in NonEmpty(cs) <==> x in cs && x != ""
  {
    if cs != [] {
      NonEmptyMembers(cs[1..]);
      assert cs == [cs[0]] + cs[1..];
    }
  }

  function TrimStart(s: string, prefix: string): string
    requires prefix != ""
  {
    if prefix <= s then TrimStart(s[|prefix|..], prefix) else s
  }

  function TrimEnd(s: string): string {
    if s != "" && s[|s| - 1] == '/' then TrimEnd(s[..|s| - 1]) else s
  }

  /** Trimming leaves a suffix that no longer starts with the prefix. */
  lemma {:induction false} TrimStartText(s: string, prefix: string)
    requires prefix != ""
    ensures |TrimStart(s, prefix)| <= |s| && TrimStart(s, prefix) == s[|s| - |TrimStart(s, prefix)|..]
    ensures |TrimStart(s, prefix)| == |s| ==> !(prefix <= s)
    ensures !(prefix <= TrimStart(s, prefix))
    decreases |s|
  {
    if prefix <= s {
      TrimStartText(s[|prefix|..], prefix);
    }
  }

  lemma {:induction false} TrimEndText(s: string)
    ensures |TrimEnd(s)| <= |s| && TrimEnd(s) == s[..|TrimEnd(s)|]
    ensures |TrimEnd(s)| == |s| ==> s == "" || s[|s| - 1] != '/'
    ensures TrimEnd(s) == "" || TrimEnd(s)[|TrimEnd(s)| - 1] != '/'
  {
    if s != "" && s[|s| - 1] == '/' {
      TrimEndText(s[..|s| - 1]);
    }
  }

  lemma LeadingSlash(tail: string)
    ensures Components("/" + tail) == Components(tail)
  {
    assert "/" + tail == "" + "/" + tail;
    ComponentsAt("", tail);
    ComponentsJoin([]);
  }

  lemma TrailingSlash(front: string)
    ensures Components(front + "/") == Components(front)
  {
    assert front + "/" == front + "/" + "";
    ComponentsAt(front, "");
    ComponentsJoin([]);
  }

  lemma {:induction false} TrimSlashesKeeps(s: string)
    ensures Components(TrimStart(s, "/")) == Components(s)
  {
    if "/" <= s {
      TrimSlashesKeeps(s[1..]);
      LeadingSlash(s[1..]);
      assert s == "/" + s[1..];
    }
  }

  lemma {:induction false} TrimEndKeeps(s: string)
    ensures Components(TrimEnd(s)) == Components(s)
  {
    if s != "" && s[|s| - 1] == '/' {
      var front := s[..|s| - 1];
      TrimEndKeeps(front);
      TrailingSlash(front);
      assert s == front + "/";
    }
  }
}
