/**
 Workspace-relative paths (`workspace_graph.rs`): normalisation by repeated rewriting, the
 containment test, and the lexical walk of a symlink target.
 */
module WorkspacePath {
  import opened Prelude
  import opened PathText

  // ---- what normalisation means -------------------------------------------------

  /** Backslashes read as slashes. */
  function Slashed(s: string): (t: string)
    ensures |t| == |s|
    ensures forall i :: 0 <= i < |s| ==> t[i] == if s[i] == '\\' then '/' else s[i]
  {
    seq(|s|, i requires 0 <= i < |s| => if s[i] == '\\' then '/' else s[i])
  }

  function DropDots(cs: seq<string>): seq<string> {
    if cs != [] && cs[0] == "." then DropDots(cs[1..]) else cs
  }

  /** The components a path names, without the leading dots. */
  function Named(s: string): seq<string> {
    DropDots(Components(Slashed(s)))
  }

  /** The canonical text of a path. */
  function Canonical(s: string): string {
    Join(Named(s))
  }

  lemma {:induction false} DropDotsSuffix(cs: seq<string>)
    ensures |DropDots(cs)| <= |cs| && DropDots(cs) == cs[|cs| - |DropDots(cs)|..]
    ensures DropDots(cs) != [] ==> DropDots(cs)[0] != "."
  {
    if cs != [] && cs[0] == "." {
      DropDotsSuffix(cs[1..]);
    }
  }

  // ---- the rewriting loops ------------------------------------------------------

  predicate HasDoubleSlash(s: string) {
    exists i :: 0 <= i < |s| - 1 && s[i] == '/' && s[i + 1] == '/'
  }

  /** `replace("//", "/")`: left to right, without overlaps. */
  function ReplaceDouble(s: string): string {
    if |s| < 2 then s
    else if s[0] == '/' && s[1] == '/' then "/" + ReplaceDouble(s[2..])
    else [s[0]] + ReplaceDouble(s[1..])
  }

  lemma {:induction false} ReplaceShrinks(s: string)
    ensures |ReplaceDouble(s)| <= |s|
    ensures HasDoubleSlash(s) ==> |ReplaceDouble(s)| < |s|
  {
    if |s| < 2 {
    } else if s[0] == '/' && s[1] == '/' {
      ReplaceShrinks(s[2..]);
    } else {
      ReplaceShrinks(s[1..]);
      if HasDoubleSlash(s) {
        var i :| 0 <= i < |s| - 1 && s[i] == '/' && s[i + 1] == '/';
        assert s[1..][i - 1] == '/' && s[1..][i] == '/';
      }
    }
  }

  /** Collapsing keeps the first component and the other non-empty ones. */
  lemma {:induction false} ReplaceKeeps(s: string)
    ensures Split(ReplaceDouble(s))[0] == Split(s)[0]
    ensures NonEmpty(Split(ReplaceDouble(s))[1..]) == NonEmpty(Split(s)[1..])
  {
    if |s| < 2 {
    } else if s[0] == '/' && s[1] == '/' {
      var rest := s[2..];
      ReplaceKeeps(rest);
      SplitCons('/', ReplaceDouble(rest));
      SplitCons('/', rest);
      SplitCons('/', "/" + rest);
      assert s == ['/'] + ("/" + rest);
      var a, b := Split(ReplaceDouble(rest)), Split(rest);
      assert ([""] + a)[1..] == a && ([""] + ([""] + b))[1..] == [""] + b;
      FirstAndRest(a);
      FirstAndRest(b);
      assert NonEmpty([""] + b) == NonEmpty(([""] + b)[1..]);
      assert ([""] + b)[1..] == b;
    } else {
      var tail := s[1..];
      ReplaceKeeps(tail);
      SplitCons(s[0], tail);
      SplitCons(s[0], ReplaceDouble(tail));
      assert s == [s[0]] + tail;
      var a, b := Split(ReplaceDouble(tail)), Split(tail);
      FirstAndRest(a);
      FirstAndRest(b);
      ExtendTail(s[0], a);
      ExtendTail(s[0], b);
    }
  }

  lemma FirstAndRest(cs: seq<string>)
    requires cs != []
    ensures NonEmpty(cs) == (if cs[0] == "" then [] else [cs[0]]) + NonEmpty(cs[1..])
  {
  }

  lemma ExtendTail(c: char, cs: seq<string>)
    requires cs != []
    ensures Extend(c, cs)[1..] == if c == '/' then cs else cs[1..]
  {
  }

  lemma ReplaceKeepsComponents(s: string)
    ensures Components(ReplaceDouble(s)) == Components(s)
  {
    ReplaceKeeps(s);
    FirstAndRest(Split(ReplaceDouble(s)));
    FirstAndRest(Split(s));
  }

  /** The pass of the second loop. */
  function Trim(s: string): string {
    TrimEnd(TrimStart(TrimStart(s, "./"), "/"))
  }

  lemma LeadingDot(tail: string)
    ensures DropDots(Components("./" + tail)) == DropDots(Components(tail))
  {
    assert "./" + tail == "." + "/" + tail;
    ComponentsAt(".", tail);
    ComponentsJoin(["."]);
    assert Join(["."]) == ".";
    assert (["."] + Components(tail))[1..] == Components(tail);
  }

  lemma {:induction false} TrimDotsKeeps(s: string)
    ensures DropDots(Components(TrimStart(s, "./"))) == DropDots(Components(s))
  {
    if "./" <= s {
      TrimDotsKeeps(s[2..]);
      LeadingDot(s[2..]);
      assert s == "./" + s[2..];
    }
  }

  lemma TrimKeeps(s: string)
    ensures DropDots(Components(Trim(s))) == DropDots(Components(s))
  {
    TrimDotsKeeps(s);
    TrimSlashesKeeps(TrimStart(s, "./"));
    TrimEndKeeps(TrimStart(TrimStart(s, "./"), "/"));
  }

  lemma TrimShortens(s: string)
    ensures |Trim(s)| <= |s|
    ensures |Trim(s)| == |s| ==> !("./" <= s) && !("/" <= s) && (s == "" || s[|s| - 1] != '/')
  {
    var a := TrimStart(s, "./");
    var b := TrimStart(a, "/");
    var c := TrimEnd(b);
    TrimStartText(s, "./");
    TrimStartText(a, "/");
    TrimEndText(b);
    assert |c| <= |b| <= |a| <= |s|;
    if |c| == |s| {
      assert a == s;
      assert b == s;
    }
  }

  lemma TrimStartSingle(s: string, prefix: string)
    requires prefix != "" && !HasDoubleSlash(s)
    ensures !HasDoubleSlash(TrimStart(s, prefix))
  {
    var lo := |s| - |TrimStart(s, prefix)|;
    TrimStartText(s, prefix);
    NoDoubleSlice(s, lo, |s|);
    assert s[lo..|s|] == s[lo..];
  }

  lemma TrimKeepsSingle(s: string)
    requires !HasDoubleSlash(s)
    ensures !HasDoubleSlash(Trim(s))
  {
    TrimStartSingle(s, "./");
    TrimStartSingle(TrimStart(s, "./"), "/");
    var b := TrimStart(TrimStart(s, "./"), "/");
    TrimEndText(b);
    NoDoubleSlice(b, 0, |TrimEnd(b)|);
  }

  lemma NoDoubleSlice(s: string, lo: nat, hi: nat)
    requires lo <= hi <= |s| && !HasDoubleSlash(s)
    ensures !HasDoubleSlash(s[lo..hi])
  {
    var t := s[lo..hi];
    forall i | 0 <= i < |t| - 1
      ensures !(t[i] == '/' && t[i + 1] == '/')
    {
      assert t[i] == s[lo + i] && t[i + 1] == s[lo + i + 1];
    }
  }

  /** Fully trimmed and collapsed text has no empty component. */
  lemma {:induction false} NoEmptyComponent(s: string)
    requires s != "" && s[|s| - 1] != '/' && !HasDoubleSlash(s)
    ensures forall i :: 1 <= i < |Split(s)| ==> Split(s)[i] != ""
    ensures s[0] != '/' ==> Split(s)[0] != ""
  {
    if |s| > 1 {
      var tail := s[1..];
      NoDoubleSlice(s, 1, |s|);
      assert s[1..|s|] == tail;
      NoEmptyComponent(tail);
      assert !(s[0] == '/' && s[0 + 1] == '/');
    } else {
      SplitWord(s);
    }
  }

  lemma TrimmedIsCanonical(s: string)
    requires !HasDoubleSlash(s) && !("./" <= s) && !("/" <= s) && (s == "" || s[|s| - 1] != '/')
    ensures (if s == "." then "" else s) == Join(DropDots(Components(s)))
  {
    if s == "" {
      ComponentsJoin([]);
    } else {
      NoEmptyComponent(s);
      NonEmptyWords(Split(s));
      JoinSplit(s);
      var cs := Split(s);
      if cs[0] == "." {
        DotFirst(s);
        assert DropDots(["."]) == DropDots(["."][1..]);
      }
    }
  }

  /** A first component `.` without a slash after it is the whole text. */
  lemma DotFirst(s: string)
    requires Split(s)[0] == "." && !("./" <= s)
    ensures s == "." && Split(s) == ["."]
  {
    JoinSplit(s);
  }

  /** `normalize_workspace_path`. */
  method Normalize(path: string) returns (normalized: string)
    ensures normalized == Canonical(path)
  {
    normalized := Slashed(path);
    while HasDoubleSlash(normalized)
      invariant Components(normalized) == Components(Slashed(path))
      decreases |normalized|
    {
      ReplaceShrinks(normalized);
      ReplaceKeepsComponents(normalized);
      normalized := ReplaceDouble(normalized);
    }
    while true
      invariant !HasDoubleSlash(normalized)
      invariant DropDots(Components(normalized)) == Named(path)
      decreases |normalized|
    {
      TrimKeeps(normalized);
      TrimShortens(normalized);
      TrimKeepsSingle(normalized);
      var trimmed := Trim(normalized);
      if |trimmed| == |normalized| {
        break;
      }
      normalized := trimmed;
    }
    TrimKeeps(normalized);
    TrimShortens(normalized);
    TrimmedIsCanonical(normalized);
    if normalized == "." {
      normalized := "";
    }
  }

  // ---- canonical paths ----------------------------------------------------------

  predicate IsCanonical(p: string) {
    Canonical(p) == p
  }

  lemma {:induction false} JoinChars(cs: seq<string>, c: char)
    requires c != '/' && forall i :: 0 <= i < |cs| ==> c !in cs[i]
    ensures c !in Join(cs)
  {
    if |cs| > 1 {
      JoinChars(cs[1..], c);
    }
  }

  lemma SlashedIsIdentity(s: string)
    requires '\\' !in s
    ensures Slashed(s) == s
  {
  }

  /** Named components are words without backslashes, not starting with a dot component. */
  lemma NamedFacts(s: string)
    ensures Words(Named(s)) && (Named(s) != [] ==> Named(s)[0] != ".")
    ensures forall i :: 0 <= i < |Named(s)| ==> '\\' !in Named(s)[i]
  {
    var t := Slashed(s);
    var all := Components(t);
    ComponentsAreWords(t);
    DropDotsSuffix(all);
    SplitChars(t, '\\');
    NonEmptyMembers(Split(t));
    forall i | 0 <= i < |Named(s)|
      ensures '\\' !in Named(s)[i] && Word(Named(s)[i])
    {
      var j := i + |all| - |Named(s)|;
      assert Named(s)[i] == all[j];
      assert all[j] in all;
    }
  }

  /** Such components are what their joined text names. */
  lemma NamedJoin(cs: seq<string>)
    requires Words(cs) && (cs != [] ==> cs[0] != ".") && forall i :: 0 <= i < |cs| ==> '\\' !in cs[i]
    ensures Named(Join(cs)) == cs && Components(Join(cs)) == cs
  {
    JoinChars(cs, '\\');
    SlashedIsIdentity(Join(cs));
    ComponentsJoin(cs);
  }

  lemma NormalizeIdempotent(s: string)
    ensures IsCanonical(Canonical(s)) && Components(Canonical(s)) == Named(s)
  {
    NamedFacts(s);
    NamedJoin(Named(s));
  }

  /** `is_equal_to_or_below`. */
  predicate EqualOrBelow(path: string, root: string) {
    root == "" || path == root || root + "/" <= path
  }

  /** On canonical paths, containment is the prefix order on component lists. */
  lemma EqualOrBelowIsPrefix(path: string, root: string)
    requires IsCanonical(path) && IsCanonical(root)
    ensures EqualOrBelow(path, root) <==> Components(root) <= Components(path)
  {
    NormalizeIdempotent(path);
    NormalizeIdempotent(root);
    ComponentsJoin([]);
    var a, b := Components(path), Components(root);
    assert path == Join(a) && root == Join(b);
    if root + "/" <= path {
      var rest := path[|root| + 1..];
      assert path == root + "/" + rest;
      ComponentsAt(root, rest);
    }
    if b <= a && b != a && b != [] {
      var rest := a[|b|..];
      assert a == b + rest;
      JoinConcat(b, rest);
    }
  }

  /** Hence it is a partial order with the workspace root below nothing. */
  lemma EqualOrBelowIsPartialOrder(a: string, b: string, c: string)
    requires IsCanonical(a) && IsCanonical(b) && IsCanonical(c)
    ensures EqualOrBelow(a, a) && EqualOrBelow(a, "")
    ensures EqualOrBelow(a, b) && EqualOrBelow(b, a) ==> a == b
    ensures EqualOrBelow(a, b) && EqualOrBelow(b, c) ==> EqualOrBelow(a, c)
  {
    EqualOrBelowIsPrefix(a, b);
    EqualOrBelowIsPrefix(b, a);
    EqualOrBelowIsPrefix(b, c);
    EqualOrBelowIsPrefix(a, c);
    NormalizeIdempotent(a);
    NormalizeIdempotent(b);
  }

  // ---- the symlink walk ---------------------------------------------------------

  /** How far one target component moves from the directory it is read in. */
  function Move(component: string): int {
    if component == "" || component == "." then 0 else if component == ".." then -1 else 1
  }

  /** The depth below the workspace root after the first `k` components. */
  function Depth(start: int, components: seq<string>, k: nat): int
    requires k <= |components|
  {
    if k == 0 then start else Depth(start, components, k - 1) + Move(components[k - 1])
  }

  /** The directories left after walking `components` from `stack`, if it never left the root. */
  function Walk(stack: seq<string>, components: seq<string>): Option<seq<string>> {
    if components == [] then Some(stack)
    else
      var n := |components| - 1;
      var before := Walk(stack, components[..n]);
      if before.None? then None
      else if components[n] == "" || components[n] == "." then before
      else if components[n] == ".." then
        if before.value == [] then None else Some(before.value[..|before.value| - 1])
      else Some(before.value + [components[n]])
  }

  /** No prefix of the walk goes above the root. */
  ghost predicate StaysInside(start: int, components: seq<string>) {
    forall k :: 0 <= k <= |components| ==> Depth(start, components, k) >= 0
  }

  /** It does so exactly if the walk without its last step does and that step does. */
  lemma StaysInsideStep(start: int, components: seq<string>)
    requires components != []
    ensures var n := |components| - 1;
      StaysInside(start, components) <==>
        StaysInside(start, components[..n]) && Depth(start, components[..n], n) + Move(components[n]) >= 0
  {
    var n := |components| - 1;
    var front := components[..n];
    forall k | 0 <= k <= n
      ensures Depth(start, components, k) == Depth(start, front, k)
    {
      DepthOfPrefix(start, components, n, k);
    }
    assert Depth(start, components, n + 1) == Depth(start, front, n) + Move(components[n]);
    if StaysInside(start, components) {
      forall k | 0 <= k <= n
        ensures Depth(start, front, k) >= 0
      {
        assert Depth(start, components, k) >= 0;
      }
    }
    if StaysInside(start, front) && Depth(start, components, n + 1) >= 0 {
      forall k | 0 <= k <= n + 1
        ensures Depth(start, components, k) >= 0
      {
        if k <= n {
          assert Depth(start, front, k) >= 0;
        }
      }
    }
  }

  /** The walk succeeds exactly when no prefix of it goes above the root. */
  lemma {:induction false} WalkStaysInside(stack: seq<string>, components: seq<string>)
    ensures Walk(stack, components).Some? <==> StaysInside(|stack|, components)
    ensures Walk(stack, components).Some? ==> |Walk(stack, components).value| == Depth(|stack|, components, |components|)
  {
    if components != [] {
      var n := |components| - 1;
      WalkStaysInside(stack, components[..n]);
      StaysInsideStep(|stack|, components);
      DepthOfPrefix(|stack|, components, n, n);
    }
  }

  lemma {:induction false} DepthOfPrefix(start: int, components: seq<string>, n: nat, k: nat)
    requires k <= n <= |components|
    ensures Depth(start, components, k) == Depth(start, components[..n], k)
  {
    if k > 0 {
      DepthOfPrefix(start, components, n, k - 1);
    }
  }

  predicate DotFree(cs: seq<string>) {
    forall i :: 0 <= i < |cs| ==> cs[i] != "." && cs[i] != ".."
  }

  predicate Plain(cs: seq<string>) {
    Words(cs) && DotFree(cs) && forall i :: 0 <= i < |cs| ==> '\\' !in cs[i]
  }

  lemma {:induction false} WalkKeepsPlain(stack: seq<string>, components: seq<string>)
    requires Plain(stack)
    requires forall i :: 0 <= i < |components| ==> '/' !in components[i] && '\\' !in components[i]
    ensures Walk(stack, components).Some? ==> Plain(Walk(stack, components).value)
  {
    if components != [] {
      WalkKeepsPlain(stack, components[..|components| - 1]);
    }
  }

  /** The directory holding a link. */
  function LinkDirectory(link: string): seq<string>
    requires Canonical(link) != ""
  {
    var cs := Split(Canonical(link));
    cs[..|cs| - 1]
  }

  predicate Escapes(target: string) {
    target == "" || target[0] == '/'
  }

  /** `resolve_symlink_target`. */
  method ResolveSymlinkTarget(linkPath: string, target: string) returns (r: Option<string>)
    ensures Escapes(target) || Canonical(linkPath) == "" ==> r == None
    ensures !Escapes(target) && Canonical(linkPath) != "" ==>
      var start := LinkDirectory(linkPath);
      && (r.Some? <==> StaysInside(|start|, Split(target)))
      && (r.Some? ==> Walk(start, Split(target)).Some? && r.value == Canonical(Join(Walk(start, Split(target)).value)))
  {
    if target == "" || target[0] == '/' {
      return None;
    }
    var link := Normalize(linkPath);
    if link == "" {
      return None;
    }
    var directory := Split(link);
    directory := directory[..|directory| - 1];
    WalkStaysInside(directory, Split(target));
    var resolved := WalkTarget(directory, Split(target));
    if resolved == None {
      return None;
    }
    var text := Normalize(Join(resolved.value));
    return Some(text);
  }

  /** The loop of `resolve_symlink_target`. */
  method WalkTarget(start: seq<string>, components: seq<string>) returns (r: Option<seq<string>>)
    ensures r == Walk(start, components)
  {
    var resolved := start;
    for i := 0 to |components|
      invariant Walk(start, components[..i]) == Some(resolved)
    {
      var component := components[i];
      assert components[..i + 1][..i] == components[..i];
      if component == "" || component == "." {
      } else if component == ".." {
        if resolved == [] {
          WalkFailsOn(start, components, i + 1);
          return None;
        }
        resolved := resolved[..|resolved| - 1];
      } else {
        resolved := resolved + [component];
      }
    }
    assert components[..|components|] == components;
    return Some(resolved);
  }

  lemma {:induction false} WalkFailsOn(stack: seq<string>, components: seq<string>, n: nat)
    requires n <= |components| && Walk(stack, components[..n]).None?
    ensures Walk(stack, components).None?
    decreases |components| - n
  {
    if n == |components| {
      assert components[..n] == components;
    } else {
      assert components[..n + 1][..n] == components[..n];
      WalkFailsOn(stack, components, n + 1);
    }
  }

  /** For a link path without dot components and a target without backslashes, the resolved
      path has exactly the walked components, none of them empty or a dot component. */
  lemma ResolvedIsPlain(linkPath: string, target: string)
    requires Canonical(linkPath) != "" && DotFree(Named(linkPath)) && '\\' !in target
    ensures var walked := Walk(LinkDirectory(linkPath), Split(target));
      walked.Some? ==> Plain(walked.value) && Components(Canonical(Join(walked.value))) == walked.value
  {
    NamedFacts(linkPath);
    assert Join([]) == "";
    SplitJoin(Named(linkPath));
    SplitSlashFree(target);
    SplitChars(target, '\\');
    WalkKeepsPlain(LinkDirectory(linkPath), Split(target));
    var walked := Walk(LinkDirectory(linkPath), Split(target));
    if walked.Some? {
      NamedJoin(walked.value);
      NormalizeIdempotent(Join(walked.value));
    }
  }

  lemma SlashedConcat(a: string, b: string)
    ensures Slashed(a + "/" + b) == Slashed(a) + "/" + Slashed(b)
  {
  }

  /** Joined names, read with backslashes as slashes, have the components of each name so read. */
  lemma {:induction false} SlashedJoinHas(cs: seq<string>, x: string)
    ensures x in Components(Slashed(Join(cs))) <==> exists i :: 0 <= i < |cs| && x in Components(Slashed(cs[i]))
  {
    if cs == [] {
      ComponentsJoin([]);
      assert Slashed("") == Join([]);
    } else if |cs| > 1 {
      var rest := cs[1..];
      SlashedJoinHas(rest, x);
      SlashedConcat(cs[0], Join(rest));
      ComponentsAt(Slashed(cs[0]), Slashed(Join(rest)));
      assert forall i :: 0 <= i < |rest| ==> rest[i] == cs[i + 1];
      assert forall i :: 1 <= i < |cs| ==> cs[i] == rest[i - 1];
    }
  }

  lemma {:induction false} DropDotsHas(cs: seq<string>, x: string)
    requires x != "."
    ensures x in DropDots(cs) <==> x in cs
  {
    if cs != [] && cs[0] == "." {
      DropDotsHas(cs[1..], x);
      assert cs == [cs[0]] + cs[1..];
    }
  }

  /** Exactly when a resolved path has a parent component: some walked name, read with its
      backslashes as slashes, has one. */
  lemma ResolvedClimbs(linkPath: string, target: string)
    requires Canonical(linkPath) != "" && Walk(LinkDirectory(linkPath), Split(target)).Some?
    ensures var walked := Walk(LinkDirectory(linkPath), Split(target)).value;
      ".." in Components(Canonical(Join(walked))) <==>
        exists i :: 0 <= i < |walked| && ".." in Components(Slashed(walked[i]))
  {
    var walked := Walk(LinkDirectory(linkPath), Split(target)).value;
    NormalizeIdempotent(Join(walked));
    DropDotsHas(Components(Slashed(Join(walked))), "..");
    SlashedJoinHas(walked, "..");
  }

  lemma RootLink()
    ensures Canonical("l") == "l" && LinkDirectory("l") == []
  {
    ComponentsJoin(["l"]);
    SlashedIsIdentity("l");
    assert Join(["l"]) == "l";
    SplitWord("l");
  }

  lemma WalksOneName(name: string)
    requires Word(name) && name != "." && name != ".."
    ensures Walk([], Split(name)) == Some([name])
  {
    SplitWord(name);
    var cs := [name];
    assert cs[..0] == [] && [] + cs == cs;
    assert Walk([], cs[..0]) == Some([]);
  }

  lemma ReadsAsClimb()
    ensures Canonical("..\\x") == "../x"
  {
    assert Slashed("..\\x") == "../x" == Join(["..", "x"]);
    ComponentsJoin(["..", "x"]);
  }

  /** A link at the root and a target that climbs out: the walk takes `..\x` for one name, and
      the final normalisation reads its backslash as a slash. */
  method BackslashClimbsOut() returns (r: Option<string>)
    ensures r == Some("../x")
  {
    RootLink();
    WalksOneName("..\\x");
    ReadsAsClimb();
    WalkStaysInside([], Split("..\\x"));
    r := ResolveSymlinkTarget("l", "..\\x");
  }
}
