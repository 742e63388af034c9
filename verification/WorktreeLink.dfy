/**
 Relocatable worktree links (`git_worktree_link.rs`): the absolute path in a git link file is
 stored under a marker that stands for the workspace root, and written back under whatever
 root the receiving machine has. File contents are text; other bytes pass through unchanged.
 */
module WorktreeLink {
  import opened Prelude
  import opened PathText

  const MARKER: string := "${BOWLINE_WORKSPACE_ROOT}"
  const GITDIR_PREFIX: string := "gitdir: "

  datatype LinkFile = Gitlink | AdminPointer

  // ---- paths as `std::path` reads them ----------------------------------------

  predicate Absolute(path: string) { "/" <= path }

  /** `has_dot_segment`. */
  predicate HasDotSegment(path: string) {
    "." in Split(path) || ".." in Split(path)
  }

  function WithoutDot(cs: seq<string>): seq<string> {
    if cs == [] then [] else (if cs[0] == "." then [] else [cs[0]]) + WithoutDot(cs[1..])
  }

  /** The components of an absolute path after its root; a `.` is no component. */
  function Parts(path: string): seq<string> {
    WithoutDot(Components(path))
  }

  function SkipWord(s: string): string {
    if s == "" || s[0] == '/' then s else SkipWord(s[1..])
  }

  /** What is left of the text once `k` components have been consumed. */
  function After(s: string, k: nat): string
    decreases k
  {
    var t := TrimStart(s, "/");
    if k == 0 then t else After(SkipWord(t), k - 1)
  }

  /** `strip_prefix` for an absolute dot-free path: component by component. */
  function StripPrefix(path: string, root: string): Option<string> {
    if Absolute(root) && Parts(root) <= Components(path) then Some(TrimEnd(After(path, |Parts(root)|))) else None
  }

  /** `is_clean_relative_path`: relative, no parent component, at least one normal one. */
  predicate CleanRelative(path: string) {
    !Absolute(path) && CleanComponents(Components(path))
  }

  predicate CleanComponents(cs: seq<string>) {
    ".." !in cs && exists i :: 0 <= i < |cs| && cs[i] != "."
  }

  /** Its loop over the components of a relative path. */
  method CheckComponents(components: seq<string>) returns (clean: bool)
    ensures clean == CleanComponents(components)
  {
    var hasNormal := false;
    for i := 0 to |components|
      invariant hasNormal <==> exists j :: 0 <= j < i && components[j] != "."
      invariant forall j :: 0 <= j < i ==> components[j] != ".."
    {
      if components[i] == ".." {
        return false;
      }
      if components[i] != "." {
        hasNormal := true;
      }
    }
    return hasNormal;
  }

  // ---- one path token ---------------------------------------------------------

  /** `normalized_root_text`. */
  function RootText(root: string): string {
    if root == "/" then root else TrimEnd(root)
  }

  function JoinRoot(rootText: string, relative: string): string {
    if rootText == "/" then "/" + relative else rootText + "/" + relative
  }

  /** `normalize_path_token`. */
  function NormalizeToken(token: string, root: string): Option<string> {
    if HasDotSegment(token) || !Absolute(token) then None
    else
      var relative := StripPrefix(token, root);
      if relative.None? || !CleanRelative(relative.value) then None
      else Some(MARKER + "/" + TrimStart(relative.value, "/"))
  }

  /** `denormalize_path_token`. */
  function DenormalizeToken(token: string, root: string): Option<string> {
    if token == MARKER then Some(RootText(root))
    else if !(MARKER + "/" <= token) then None
    else
      var relative := token[|MARKER| + 1..];
      if HasDotSegment(relative) || !CleanRelative(relative) then None
      else Some(JoinRoot(RootText(root), relative))
  }

  // ---- one link file ----------------------------------------------------------

  datatype Line = Line(text: string, newline: bool)

  /** `split_single_line`. */
  function SplitSingleLine(text: string): Option<Line> {
    if text != "" && text[|text| - 1] == '\n' then
      var line := text[..|text| - 1];
      if '\n' in line || line == "" then None else Some(Line(line, true))
    else if '\n' in text || text == "" then None
    else Some(Line(text, false))
  }

  /** `parse_path_line`: the fixed prefix, then the path. */
  function ParsePathLine(line: string, file: LinkFile): Option<(string, string)> {
    match file
    case Gitlink =>
      if GITDIR_PREFIX <= line && |line| > |GITDIR_PREFIX| then Some((GITDIR_PREFIX, line[|GITDIR_PREFIX|..])) else None
    case AdminPointer =>
      if GITDIR_PREFIX <= line then None else Some(("", line))
  }

  datatype Direction = Normalize | Denormalize

  function Transform(token: string, root: string, direction: Direction): Option<string> {
    match direction
    case Normalize => NormalizeToken(token, root)
    case Denormalize => DenormalizeToken(token, root)
  }

  /** The same prefix and newline around the transformed path, or the same text if there is none. */
  function Rewritten(text: string, root: string, file: LinkFile, direction: Direction, token: string, newline: bool): string {
    var path := Transform(token, root, direction);
    if path.Some? then LinkText(PrefixOf(file), path.value, newline) else text
  }

  /** `transform_worktree_link_bytes`: what cannot be transformed stays as it is. */
  method TransformLink(text: string, root: string, file: LinkFile, direction: Direction) returns (output: string)
    // A line of its file's shape keeps its prefix and its newline around the transformed path, if
    // the path can be transformed; every other text stays as it is.
    ensures forall token, newline :: IsLine(text, file, token, newline) ==>
      output == Rewritten(text, root, file, direction, token, newline)
    ensures (forall token, newline :: !IsLine(text, file, token, newline)) ==> output == text
    ensures output == Transformed(text, root, file, direction)
  {
    forall token, newline | IsLine(text, file, token, newline)
      ensures Transformed(text, root, file, direction) == Rewritten(text, root, file, direction, token, newline)
    {
      TransformedLine(text, root, file, direction, token, newline);
    }
    if forall token, newline :: !IsLine(text, file, token, newline) {
      TransformedOther(text, root, file, direction);
    }
    var line := SplitSingleLine(text);
    if line == None {
      return text;
    }
    var parsed := ParsePathLine(line.value.text, file);
    if parsed == None {
      return text;
    }
    var path := Transform(parsed.value.1, root, direction);
    if path == None {
      return text;
    }
    output := Assemble(parsed.value.0, path.value, line.value.newline);
  }

  method Assemble(prefix: string, path: string, newline: bool) returns (output: string)
    ensures output == LinkText(prefix, path, newline)
  {
    output := prefix;
    output := output + path;
    if newline {
      output := output + "\n";
    }
  }

  function Transformed(text: string, root: string, file: LinkFile, direction: Direction): string {
    var line := SplitSingleLine(text);
    if line.None? then text
    else
      var parsed := ParsePathLine(line.value.text, file);
      if parsed.None? then text
      else
        var path := Transform(parsed.value.1, root, direction);
        if path.None? then text else LinkText(parsed.value.0, path.value, line.value.newline)
  }

  function LinkText(prefix: string, path: string, newline: bool): string {
    prefix + path + if newline then "\n" else ""
  }

  function PrefixOf(file: LinkFile): string {
    match file
    case Gitlink => GITDIR_PREFIX
    case AdminPointer => ""
  }

  // ---- consuming components ---------------------------------------------------

  lemma {:induction false} SkipWordSplits(s: string)
    requires s != "" && s[0] != '/'
    ensures |SkipWord(s)| < |s| && SkipWord(s) == s[|s| - |SkipWord(s)|..]
    ensures var w := s[..|s| - |SkipWord(s)|];
      Word(w) && (SkipWord(s) == "" || SkipWord(s)[0] == '/')
  {
    if |s| > 1 && s[1] != '/' {
      SkipWordSplits(s[1..]);
      var n := |s| - |SkipWord(s)|;
      assert s[..n] == [s[0]] + s[1..][..n - 1];
    } else if |s| > 1 {
      assert SkipWord(s[1..]) == s[1..];
      assert s[..1] == [s[0]];
    } else {
      assert SkipWord(s[1..]) == "";
      assert s[..1] == s;
    }
  }

  lemma WordComponents(w: string, tail: string)
    requires Word(w)
    ensures Components(w) == [w] && Components(w + "/" + tail) == [w] + Components(tail)
  {
    SplitWord(w);
    NonEmptyWords([w]);
    ComponentsAt(w, tail);
  }

  /** Skipping a word skips exactly the first component. */
  lemma SkipWordDropsOne(s: string)
    requires s != "" && s[0] != '/'
    ensures Components(s) != [] && Components(SkipWord(s)) == Components(s)[1..]
  {
    SkipWordSplits(s);
    var rest := SkipWord(s);
    var w := s[..|s| - |rest|];
    if rest == "" {
      assert s == w;
      WordComponents(w, "");
      ComponentsJoin([]);
    } else {
      var tail := rest[1..];
      assert rest == "/" + tail && s == w + "/" + tail;
      LeadingSlash(tail);
      WordComponents(w, tail);
      assert ([w] + Components(tail))[1..] == Components(tail);
    }
  }

  lemma {:induction false} AfterDrops(s: string, k: nat)
    requires k <= |Components(s)|
    ensures Components(After(s, k)) == Components(s)[k..]
    ensures !Absolute(After(s, k))
    decreases k
  {
    var t := TrimStart(s, "/");
    TrimSlashesKeeps(s);
    TrimStartText(s, "/");
    if k > 0 {
      if t == "" {
        ComponentsJoin([]);
      }
      SkipWordDropsOne(t);
      AfterDrops(SkipWord(t), k - 1);
      assert Components(s)[1..][k - 1..] == Components(s)[k..];
    } else {
      assert Components(s)[0..] == Components(s);
    }
  }

  // ---- clean paths ------------------------------------------------------------

  /** The absolute path with these components. */
  function Rooted(cs: seq<string>): string { "/" + Join(cs) }

  /** Components of an ordinary one-line path. */
  predicate Clean(cs: seq<string>) {
    Words(cs) && forall i :: 0 <= i < |cs| ==> cs[i] != "." && cs[i] != ".." && '\n' !in cs[i]
  }

  lemma {:induction false} JoinEnds(cs: seq<string>)
    requires cs != [] && Clean(cs)
    ensures Join(cs) != "" && Join(cs)[0] != '/' && Join(cs)[|Join(cs)| - 1] != '/' && '\n' !in Join(cs)
  {
    assert cs[0][0] in cs[0];
    assert cs[0][|cs[0]| - 1] in cs[0];
    if |cs| > 1 {
      JoinEnds(cs[1..]);
    }
  }

  lemma RootedFacts(cs: seq<string>)
    requires Clean(cs)
    ensures Components(Rooted(cs)) == cs && Parts(Rooted(cs)) == cs && RootText(Rooted(cs)) == Rooted(cs)
    ensures !HasDotSegment(Rooted(cs))
  {
    ComponentsJoin(cs);
    ComponentsJoin([]);
    assert Rooted(cs) == "" + "/" + Join(cs);
    ComponentsAt("", Join(cs));
    NoDots(cs);
    SplitCons('/', Join(cs));
    assert Rooted(cs) == ['/'] + Join(cs);
    if cs != [] {
      SplitJoin(cs);
      JoinEnds(cs);
    }
  }

  lemma {:induction false} NoDots(cs: seq<string>)
    requires Clean(cs)
    ensures WithoutDot(cs) == cs && "." !in cs && ".." !in cs
  {
    if cs != [] {
      NoDots(cs[1..]);
      assert cs == [cs[0]] + cs[1..];
    }
  }

  lemma {:induction false} SkipWordOf(w: string, rest: string)
    requires '/' !in w && (rest == "" || rest[0] == '/')
    ensures SkipWord(w + rest) == rest
  {
    if w == "" {
      assert w + rest == rest;
    } else {
      assert (w + rest)[1..] == w[1..] + rest;
      SkipWordOf(w[1..], rest);
    }
  }

  /** Consuming the components of a clean path leaves exactly the text of the others. */
  /** Without its slash, a rooted path is the joined components. */
  lemma RootedTrimmed(cs: seq<string>)
    requires Clean(cs) && cs != []
    ensures TrimStart(Rooted(cs), "/") == Join(cs)
  {
    JoinEnds(cs);
    var t := Join(cs);
    assert Rooted(cs)[1..] == t && "/" <= Rooted(cs) && !("/" <= t);
    assert TrimStart(t, "/") == t;
  }

  lemma RootedTail(cs: seq<string>)
    requires |cs| > 1
    ensures Join(cs) == cs[0] + Rooted(cs[1..])
  {
    assert cs[0] + "/" + Join(cs[1..]) == cs[0] + ("/" + Join(cs[1..]));
  }

  lemma {:induction false} AfterJoin(cs: seq<string>, k: nat)
    requires Clean(cs) && k < |cs|
    ensures After(Rooted(cs), k) == Join(cs[k..])
    decreases k
  {
    RootedTrimmed(cs);
    if k > 0 {
      RootedTail(cs);
      SkipWordOf(cs[0], Rooted(cs[1..]));
      AfterJoin(cs[1..], k - 1);
      assert cs[1..][k - 1..] == cs[k..];
    } else {
      assert cs[0..] == cs;
    }
  }

  lemma JoinRooted(a: seq<string>, rs: seq<string>)
    requires Clean(a) && rs != []
    ensures JoinRoot(Rooted(a), Join(rs)) == Rooted(a + rs)
  {
    if a == [] {
      assert a + rs == rs;
    } else {
      JoinConcat(a, rs);
      JoinEnds(a);
      assert Rooted(a) != "/";
    }
  }

  lemma CleanJoin(rs: seq<string>)
    requires Clean(rs) && rs != []
    ensures CleanRelative(Join(rs)) && !HasDotSegment(Join(rs))
  {
    JoinEnds(rs);
    ComponentsJoin(rs);
    SplitJoin(rs);
    NoDots(rs);
    assert rs[0] != ".";
  }

  lemma StripsRoot(a: seq<string>, rs: seq<string>)
    requires Clean(a) && Clean(rs) && rs != []
    ensures StripPrefix(Rooted(a + rs), Rooted(a)) == Some(Join(rs))
  {
    assert Parts(Rooted(a)) == a && Absolute(Rooted(a)) by { RootedFacts(a); }
    assert Components(Rooted(a + rs)) == a + rs by { RootedFacts(a + rs); }
    assert (a + rs)[|a|..] == rs;
    assert TrimEnd(After(Rooted(a + rs), |a|)) == Join(rs) by {
      AfterJoin(a + rs, |a|);
      JoinEnds(rs);
    }
  }

  lemma TokenNormalizes(a: seq<string>, rs: seq<string>)
    requires Clean(a) && Clean(rs) && rs != []
    ensures NormalizeToken(Rooted(a + rs), Rooted(a)) == Some(MARKER + "/" + Join(rs))
  {
    StripsRoot(a, rs);
    RootedFacts(a + rs);
    JoinEnds(rs);
    CleanJoin(rs);
    assert TrimStart(Join(rs), "/") == Join(rs);
  }

  lemma TokenDenormalizes(b: seq<string>, rs: seq<string>)
    requires Clean(b) && Clean(rs) && rs != []
    ensures DenormalizeToken(MARKER + "/" + Join(rs), Rooted(b)) == Some(Rooted(b + rs))
  {
    var token := MARKER + "/" + Join(rs);
    assert token[|MARKER| + 1..] == Join(rs) && token[..|MARKER| + 1] == MARKER + "/";
    CleanJoin(rs);
    RootedFacts(b);
    JoinRooted(b, rs);
  }

  // ---- whole link files -------------------------------------------------------

  /** The text is one line of the file's shape: its fixed prefix, a path, and maybe a newline. */
  predicate IsLine(text: string, file: LinkFile, token: string, newline: bool) {
    && text == LinkText(PrefixOf(file), token, newline)
    && token != "" && '\n' !in token && (file.AdminPointer? ==> !(GITDIR_PREFIX <= token))
  }

  function Newline(newline: bool): string { if newline then "\n" else "" }

  lemma SplitsLine(line: string, newline: bool)
    requires line != "" && '\n' !in line
    ensures SplitSingleLine(line + Newline(newline)) == Some(Line(line, newline))
  {
    var text := line + Newline(newline);
    if newline {
      assert text[..|text| - 1] == line;
    } else {
      assert text == line;
    }
  }

  lemma SplitIsLine(text: string)
    requires SplitSingleLine(text).Some?
    ensures var line := SplitSingleLine(text).value;
      text == line.text + Newline(line.newline) && line.text != "" && '\n' !in line.text
  {
    var line := SplitSingleLine(text).value;
    if line.newline {
      assert text == text[..|text| - 1] + [text[|text| - 1]];
    } else {
      assert text + "" == text;
    }
  }

  lemma ParsesPath(file: LinkFile, token: string)
    ensures ParsePathLine(PrefixOf(file) + token, file) ==
      if (if file.Gitlink? then token != "" else !(GITDIR_PREFIX <= token)) then Some((PrefixOf(file), token)) else None
  {
    var line := PrefixOf(file) + token;
    assert line[|PrefixOf(file)|..] == token;
    if file.Gitlink? {
      assert line[..|GITDIR_PREFIX|] == GITDIR_PREFIX;
    }
  }

  /** The parser takes a line of the shape apart ... */
  lemma ParsesLines(text: string, file: LinkFile, token: string, newline: bool)
    requires IsLine(text, file, token, newline)
    ensures SplitSingleLine(text) == Some(Line(PrefixOf(file) + token, newline))
    ensures ParsePathLine(PrefixOf(file) + token, file) == Some((PrefixOf(file), token))
  {
    assert '\n' !in PrefixOf(file);
    SplitsLine(PrefixOf(file) + token, newline);
    ParsesPath(file, token);
  }

  /** ... and accepts nothing else. */
  lemma ParsedIsLine(text: string, file: LinkFile)
    requires SplitSingleLine(text).Some? && ParsePathLine(SplitSingleLine(text).value.text, file).Some?
    ensures var line := SplitSingleLine(text).value;
      IsLine(text, file, ParsePathLine(line.text, file).value.1, line.newline)
  {
    var line := SplitSingleLine(text).value;
    var token := ParsePathLine(line.text, file).value.1;
    SplitIsLine(text);
    assert line.text == PrefixOf(file) + token;
    assert '\n' in token ==> '\n' in line.text;
  }

  /** What becomes of a line of the shape: its path changes in place, if it can. */
  lemma TransformedLine(text: string, root: string, file: LinkFile, direction: Direction, token: string, newline: bool)
    requires IsLine(text, file, token, newline)
    ensures Transformed(text, root, file, direction) == Rewritten(text, root, file, direction, token, newline)
  {
    ParsesLines(text, file, token, newline);
  }

  /** Every other text stays as it is. */
  lemma TransformedOther(text: string, root: string, file: LinkFile, direction: Direction)
    requires forall token, newline :: !IsLine(text, file, token, newline)
    ensures Transformed(text, root, file, direction) == text
  {
    if SplitSingleLine(text).Some? && ParsePathLine(SplitSingleLine(text).value.text, file).Some? {
      ParsedIsLine(text, file);
    }
  }

  lemma TokenIsLine(file: LinkFile, token: string, newline: bool)
    requires token != "" && '\n' !in token && token[0] != 'g'
    ensures IsLine(LinkText(PrefixOf(file), token, newline), file, token, newline)
  {
    assert GITDIR_PREFIX[0] == 'g';
  }

  /** What a link to `cs` under `root` looks like on disk. */
  function Link(file: LinkFile, cs: seq<string>, newline: bool): string {
    LinkText(PrefixOf(file), Rooted(cs), newline)
  }

  /** ... and how it is stored. */
  function Stored(file: LinkFile, rs: seq<string>, newline: bool): string {
    LinkText(PrefixOf(file), MARKER + "/" + Join(rs), newline)
  }

  lemma {:induction false} JoinLine(cs: seq<string>)
    requires Clean(cs)
    ensures '\n' !in Join(cs)
  {
    if |cs| > 1 {
      JoinLine(cs[1..]);
    }
  }

  lemma NormalizesToStored(file: LinkFile, a: seq<string>, rs: seq<string>, newline: bool)
    requires Clean(a) && Clean(rs) && rs != []
    ensures Transformed(Link(file, a + rs, newline), Rooted(a), file, Normalize) == Stored(file, rs, newline)
  {
    JoinLine(a + rs);
    TokenIsLine(file, Rooted(a + rs), newline);
    TransformedLine(Link(file, a + rs, newline), Rooted(a), file, Normalize, Rooted(a + rs), newline);
    TokenNormalizes(a, rs);
  }

  lemma StoredDenormalizes(file: LinkFile, b: seq<string>, rs: seq<string>, newline: bool)
    requires Clean(b) && Clean(rs) && rs != []
    ensures Transformed(Stored(file, rs, newline), Rooted(b), file, Denormalize) == Link(file, b + rs, newline)
  {
    JoinLine(rs);
    var token := MARKER + "/" + Join(rs);
    assert token[0] == MARKER[0] == '$' && '\n' !in MARKER;
    TokenIsLine(file, token, newline);
    TransformedLine(Stored(file, rs, newline), Rooted(b), file, Denormalize, token, newline);
    TokenDenormalizes(b, rs);
  }

  /** A link below root A, stored and written back under root B, points to the same place
      below B, for both kinds of file, with or without a final newline. */
  lemma Relocates(file: LinkFile, a: seq<string>, b: seq<string>, rs: seq<string>, newline: bool)
    requires Clean(a) && Clean(b) && Clean(rs) && rs != []
    ensures Transformed(Transformed(Link(file, a + rs, newline), Rooted(a), file, Normalize), Rooted(b), file, Denormalize)
      == Link(file, b + rs, newline)
  {
    NormalizesToStored(file, a, rs, newline);
    StoredDenormalizes(file, b, rs, newline);
  }

  /** Under one root, storing undoes writing back. */
  lemma StoresBack(file: LinkFile, a: seq<string>, rs: seq<string>, newline: bool)
    requires Clean(a) && Clean(rs) && rs != []
    ensures Transformed(Transformed(Stored(file, rs, newline), Rooted(a), file, Denormalize), Rooted(a), file, Normalize)
      == Stored(file, rs, newline)
  {
    StoredDenormalizes(file, a, rs, newline);
    NormalizesToStored(file, a, rs, newline);
  }

  // ---- every token ------------------------------------------------------------

  /** Root matching is component-wise: a token is stored under the marker exactly when it is absolute
      and dot-free and the root's components are a proper prefix of its own. */
  lemma MatchesByComponent(token: string, root: string)
    ensures NormalizeToken(token, root).Some? <==>
      && Absolute(token) && !HasDotSegment(token) && Absolute(root)
      && Parts(root) <= Components(token) && Parts(root) != Components(token)
  {
    var k := |Parts(root)|;
    if Absolute(token) && !HasDotSegment(token) && Absolute(root) && Parts(root) <= Components(token) {
      AfterDrops(token, k);
      var rest := After(token, k);
      TrimEndKeeps(rest);
      TrimEndText(rest);
      var relative := TrimEnd(rest);
      assert Components(relative) == Components(token)[k..];
      DotsOnlyFromSplit(token);
      if relative != "" {
        assert relative[0] == rest[0];
      }
      if Components(relative) != [] {
        assert Components(relative)[0] == Components(token)[k];
      }
    }
  }

  lemma DotsOnlyFromSplit(path: string)
    requires !HasDotSegment(path)
    ensures forall i :: 0 <= i < |Components(path)| ==> Components(path)[i] != "." && Components(path)[i] != ".."
  {
    NonEmptyMembers(Split(path));
    forall i | 0 <= i < |Components(path)|
      ensures Components(path)[i] != "." && Components(path)[i] != ".."
    {
      assert Components(path)[i] in Components(path);
    }
  }

  /** A stored token is written back exactly when it is the marker itself, or the marker and a
      relative dot-free path with some component; and then it names that path below the root. */
  lemma DenormalizesExactly(token: string, b: seq<string>)
    requires Clean(b)
    ensures var relative := if MARKER + "/" <= token then token[|MARKER| + 1..] else "";
      && (DenormalizeToken(token, Rooted(b)).Some? <==>
            token == MARKER || (!Absolute(relative) && !HasDotSegment(relative) && Components(relative) != []))
      && (DenormalizeToken(token, Rooted(b)).Some? ==>
            Components(DenormalizeToken(token, Rooted(b)).value) == b + Components(relative))
  {
    RootedFacts(b);
    ComponentsJoin([]);
    assert |MARKER + "/"| > |MARKER|;
    assert b + [] == b;
    if MARKER + "/" <= token {
      var relative := token[|MARKER| + 1..];
      JoinedComponents(b, relative);
      if !HasDotSegment(relative) {
        DotsOnlyFromSplit(relative);
        assert Components(relative) != [] ==> Components(relative)[0] != ".";
      }
    }
  }

  /** Whatever was stored, written back under a clean root B, names the same components below
      B that the token had below its own root. */
  lemma RelocatesComponents(token: string, root: string, b: seq<string>)
    requires NormalizeToken(token, root).Some? && Clean(b)
    ensures var stored := NormalizeToken(token, root).value;
      && DenormalizeToken(stored, Rooted(b)).Some?
      && Components(DenormalizeToken(stored, Rooted(b)).value) == b + Components(token)[|Parts(root)|..]
  {
    var k := |Parts(root)|;
    AfterDrops(token, k);
    var rest := After(token, k);
    TrimEndKeeps(rest);
    TrimEndText(rest);
    var relative := TrimEnd(rest);
    assert !Absolute(relative);
    var stored := MARKER + "/" + relative;
    assert stored[|MARKER| + 1..] == relative && stored[..|MARKER| + 1] == MARKER + "/";
    DotsOnlyFromSplit(token);
    NonEmptyMembers(Split(relative));
    assert "." in Split(relative) ==> "." in Components(relative);
    assert ".." in Split(relative) ==> ".." in Components(relative);
    RootedFacts(b);
    JoinedComponents(b, relative);
  }

  lemma JoinedComponents(b: seq<string>, relative: string)
    requires Clean(b)
    ensures Components(JoinRoot(Rooted(b), relative)) == b + Components(relative)
  {
    RootedFacts(b);
    ComponentsJoin([]);
    if b == [] {
      assert Rooted(b) == "/" && JoinRoot("/", relative) == "" + "/" + relative;
      ComponentsAt("", relative);
      assert [] + Components(relative) == Components(relative);
    } else {
      JoinEnds(b);
      assert Rooted(b) != "/";
      ComponentsAt(Rooted(b), relative);
    }
  }
}
