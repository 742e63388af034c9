/**
 The glob matcher of `glob.rs`: one flat table, filled backwards, whose cell (p, t) says
 whether pattern suffix p matches text suffix t.

 Its meaning is given independently: a pattern is a list of tokens, and it matches a text
 exactly when the text splits into one piece per token, each acceptable to its token.
 */
module Glob {
  import opened Prelude

  const STAR: Byte := 42
  const SLASH: Byte := 47
  const QUESTION: Byte := 63
  const MAX_GLOB_MATCH_BYTES: nat := 1024

  // ---- meaning ----------------------------------------------------------------

  datatype Token =
    | Literal(byte: Byte)
    | AnyByte       // `?`: one byte within a segment
    | Run           // `*`: any bytes within a segment
    | Segments      // `**/`: zero or more whole leading segments
    | Anything      // a final segment-aligned `**`

  /** Which piece of text a token stands for. */
  predicate Accepts(token: Token, piece: Bytes) {
    match token
    case Literal(b) => piece == [b]
    case AnyByte => |piece| == 1 && piece[0] != SLASH
    case Run => SLASH !in piece
    case Segments => piece == [] || piece[|piece| - 1] == SLASH
    case Anything => true
  }

  predicate RecursiveAt(pattern: Bytes, i: nat)
    requires i < |pattern|
  {
    && pattern[i] == STAR && i + 1 < |pattern| && pattern[i + 1] == STAR
    && DoubleStarIsRecursive(pattern, i)
  }

  /** `double_star_is_recursive`. */
  predicate DoubleStarIsRecursive(pattern: Bytes, i: nat)
    requires i + 1 < |pattern|
  {
    && (i == 0 || pattern[i - 1] == SLASH)
    && (i + 2 == |pattern| || pattern[i + 2] == SLASH)
  }

  /** The token that starts at byte `i` and the byte after it. */
  function TokenAt(pattern: Bytes, i: nat): (r: (Token, nat))
    requires i < |pattern|
    ensures i < r.1 <= |pattern|
  {
    if RecursiveAt(pattern, i) then
      if i + 2 < |pattern| then (Segments, i + 3) else (Anything, i + 2)
    else if pattern[i] == STAR then (Run, i + 1)
    else if pattern[i] == QUESTION then (AnyByte, i + 1)
    else (Literal(pattern[i]), i + 1)
  }

  function Tokens(pattern: Bytes, i: nat): seq<Token>
    requires i <= |pattern|
    decreases |pattern| - i
  {
    if i == |pattern| then [] else
      var (token, next) := TokenAt(pattern, i);
      [token] + Tokens(pattern, next)
  }

  function Flatten(pieces: seq<Bytes>): Bytes {
    if pieces == [] then [] else pieces[0] + Flatten(pieces[1..])
  }

  /** The text splits into one acceptable piece per token. */
  ghost predicate Splits(tokens: seq<Token>, text: Bytes, pieces: seq<Bytes>) {
    && |pieces| == |tokens|
    && Flatten(pieces) == text
    && forall k :: 0 <= k < |tokens| ==> Accepts(tokens[k], pieces[k])
  }

  ghost predicate Matches(tokens: seq<Token>, text: Bytes) {
    exists pieces :: Splits(tokens, text, pieces)
  }

  // ---- one token at a time ----------------------------------------------------

  /** Pattern suffix `i` matches text suffix `j`: its first token takes text[j..k]. */
  ghost predicate Cell(pattern: Bytes, text: Bytes, i: nat, j: nat)
    requires i <= |pattern| && j <= |text|
    decreases |pattern| - i
  {
    if i == |pattern| then j == |text| else
      var (token, next) := TokenAt(pattern, i);
      exists k :: j <= k <= |text| && Accepts(token, text[j..k]) && Cell(pattern, text, next, k)
  }

  /** A first piece and a split of what follows it make a split of the whole. */
  lemma SplitsCons(token: Token, rest: seq<Token>, head: Bytes, tail: Bytes)
    requires Accepts(token, head) && Matches(rest, tail)
    ensures Matches([token] + rest, head + tail)
  {
    var pieces :| Splits(rest, tail, pieces);
    var all := [head] + pieces;
    assert all[1..] == pieces;
    assert Splits([token] + rest, head + tail, all);
  }

  lemma SplitsUncons(token: Token, rest: seq<Token>, text: Bytes) returns (k: nat)
    requires Matches([token] + rest, text)
    ensures k <= |text| && Accepts(token, text[..k]) && Matches(rest, text[k..])
  {
    var tokens := [token] + rest;
    var pieces :| Splits(tokens, text, pieces);
    k := |pieces[0]|;
    assert text == pieces[0] + Flatten(pieces[1..]);
    assert Accepts(tokens[0], pieces[0]);
    assert text[..k] == pieces[0] && text[k..] == Flatten(pieces[1..]);
    assert forall n :: 0 <= n < |rest| ==> rest[n] == tokens[n + 1];
    assert Splits(rest, text[k..], pieces[1..]);
  }

  /** A cell is a first piece and a match of the rest, told by the cells of the next token. */
  lemma MatchesByCell(token: Token, rest: seq<Token>, text: Bytes, j: nat, k: nat)
    requires j <= k <= |text| && Accepts(token, text[j..k]) && Matches(rest, text[k..])
    ensures Matches([token] + rest, text[j..])
  {
    SplitsCons(token, rest, text[j..k], text[k..]);
    assert text[j..k] + text[k..] == text[j..];
  }

  lemma CellByMatches(token: Token, rest: seq<Token>, text: Bytes, j: nat) returns (k: nat)
    requires j <= |text| && Matches([token] + rest, text[j..])
    ensures j <= k <= |text| && Accepts(token, text[j..k]) && Matches(rest, text[k..])
  {
    var taken := SplitsUncons(token, rest, text[j..]);
    k := j + taken;
    assert text[j..][..taken] == text[j..k] && text[j..][taken..] == text[k..];
  }

  lemma {:induction false} CellIsMeaning(pattern: Bytes, text: Bytes, i: nat, j: nat)
    requires i <= |pattern| && j <= |text|
    ensures Cell(pattern, text, i, j) <==> Matches(Tokens(pattern, i), text[j..])
    decreases |pattern| - i
  {
    if i == |pattern| {
      NothingLeft(text, j);
    } else {
      var (token, next) := TokenAt(pattern, i);
      var rest := Tokens(pattern, next);
      if Cell(pattern, text, i, j) {
        var k :| j <= k <= |text| && Accepts(token, text[j..k]) && Cell(pattern, text, next, k);
        CellIsMeaning(pattern, text, next, k);
        MatchesByCell(token, rest, text, j, k);
      }
      if Matches([token] + rest, text[j..]) {
        var k := CellByMatches(token, rest, text, j);
        CellIsMeaning(pattern, text, next, k);
      }
    }
  }

  lemma NothingLeft(text: Bytes, j: nat)
    requires j <= |text|
    ensures Matches([], text[j..]) <==> j == |text|
  {
    if j == |text| {
      assert Splits([], text[j..], []);
    }
  }

  // ---- the recurrences the table is filled by ---------------------------------

  /** `*` takes nothing, or one more byte of this segment. */
  lemma RunRecurrence(pattern: Bytes, text: Bytes, i: nat, j: nat)
    requires i < |pattern| && j <= |text| && TokenAt(pattern, i).0 == Run
    ensures Cell(pattern, text, i, j) <==>
      || Cell(pattern, text, i + 1, j)
      || (j < |text| && text[j] != SLASH && Cell(pattern, text, i, j + 1))
  {
    if Cell(pattern, text, i + 1, j) {
      assert Accepts(Run, text[j..j]);
    }
    if j < |text| && text[j] != SLASH && Cell(pattern, text, i, j + 1) {
      var k :| j + 1 <= k <= |text| && Accepts(Run, text[j + 1..k]) && Cell(pattern, text, i + 1, k);
      assert text[j..k] == [text[j]] + text[j + 1..k];
      assert Accepts(Run, text[j..k]);
    }
    if Cell(pattern, text, i, j) {
      var k :| j <= k <= |text| && Accepts(Run, text[j..k]) && Cell(pattern, text, i + 1, k);
      if k > j {
        assert text[j..k] == [text[j]] + text[j + 1..k];
        assert Accepts(Run, text[j + 1..k]);
      }
    }
  }

  /** A token of exactly one byte. */
  lemma ByteRecurrence(pattern: Bytes, text: Bytes, i: nat, j: nat)
    requires i < |pattern| && j <= |text|
    requires TokenAt(pattern, i).0.Literal? || TokenAt(pattern, i).0.AnyByte?
    ensures Cell(pattern, text, i, j) <==>
      j < |text| && Accepts(TokenAt(pattern, i).0, [text[j]]) && Cell(pattern, text, i + 1, j + 1)
  {
    var token := TokenAt(pattern, i).0;
    if j < |text| {
      assert text[j..j + 1] == [text[j]];
      assert forall k :: j <= k <= |text| && Accepts(token, text[j..k]) ==> k == j + 1;
    }
  }

  /** Whole segments end at `k`. */
  predicate Boundary(text: Bytes, j: nat, k: nat)
    requires j <= k <= |text|
  {
    k == j || text[k - 1] == SLASH
  }

  lemma SegmentsAtBoundary(text: Bytes, j: nat, k: nat)
    requires j <= k <= |text|
    ensures Accepts(Segments, text[j..k]) <==> Boundary(text, j, k)
  {
    if k > j {
      assert text[j..k][|text[j..k]| - 1] == text[k - 1];
    }
  }

  lemma SegmentsCell(pattern: Bytes, text: Bytes, i: nat, j: nat)
    requires i < |pattern| && j <= |text| && TokenAt(pattern, i).0 == Segments
    ensures Cell(pattern, text, i, j) <==>
      exists k :: j <= k <= |text| && Boundary(text, j, k) && Cell(pattern, text, i + 3, k)
  {
    forall k | j <= k <= |text|
      ensures Accepts(Segments, text[j..k]) <==> Boundary(text, j, k)
    {
      SegmentsAtBoundary(text, j, k);
    }
  }

  /** The running value of `later_segment_matches` after position `j`. */
  ghost predicate LaterSegment(pattern: Bytes, text: Bytes, i: nat, j: nat)
    requires i <= |pattern| && j <= |text|
  {
    exists k :: j < k <= |text| && text[k - 1] == SLASH && Cell(pattern, text, i, k)
  }

  /** A leading double star takes nothing, or skips to the start of any later segment. */
  lemma SegmentsRecurrence(pattern: Bytes, text: Bytes, i: nat, j: nat)
    requires i < |pattern| && j <= |text| && TokenAt(pattern, i).0 == Segments
    ensures Cell(pattern, text, i, j) <==> Cell(pattern, text, i + 3, j) || LaterSegment(pattern, text, i, j)
  {
    SegmentsCell(pattern, text, i, j);
    if Cell(pattern, text, i + 3, j) {
      assert Boundary(text, j, j);
    }
    if LaterSegment(pattern, text, i, j) {
      var k :| j < k <= |text| && text[k - 1] == SLASH && Cell(pattern, text, i, k);
      SegmentsCell(pattern, text, i, k);
      var n :| k <= n <= |text| && Boundary(text, k, n) && Cell(pattern, text, i + 3, n);
      assert Boundary(text, j, n);
    }
    if Cell(pattern, text, i, j) && !Cell(pattern, text, i + 3, j) {
      var k :| j <= k <= |text| && Boundary(text, j, k) && Cell(pattern, text, i + 3, k);
      SegmentsCell(pattern, text, i, k);
      assert Boundary(text, k, k);
    }
  }

  lemma AnythingRecurrence(pattern: Bytes, text: Bytes, i: nat, j: nat)
    requires i < |pattern| && j <= |text| && TokenAt(pattern, i).0 == Anything
    ensures Cell(pattern, text, i, j)
  {
    assert Accepts(Anything, text[j..|text|]) && Cell(pattern, text, i + 2, |text|);
  }

  // ---- what double stars come to -----------------------------------------------

  predicate Plain(b: Bytes) { STAR !in b && QUESTION !in b }

  /** A part without wildcards stands for itself. */
  lemma {:induction false} PlainPart(pattern: Bytes, text: Bytes, i: nat, m: nat, j: nat)
    requires i <= m <= |pattern| && j <= |text| && Plain(pattern[i..m])
    ensures Cell(pattern, text, i, j) <==>
      && j + (m - i) <= |text| && text[j..j + (m - i)] == pattern[i..m]
      && Cell(pattern, text, m, j + (m - i))
    decreases m - i
  {
    if i < m {
      PlainByte(pattern, i, m);
      ByteRecurrence(pattern, text, i, j);
      if j < |text| {
        PlainPart(pattern, text, i + 1, m, j + 1);
        SliceStep(pattern, text, i, m, j);
      }
    }
  }

  lemma PlainByte(pattern: Bytes, i: nat, m: nat)
    requires i < m <= |pattern| && Plain(pattern[i..m])
    ensures TokenAt(pattern, i) == (Literal(pattern[i]), i + 1) && Plain(pattern[i + 1..m])
  {
    assert pattern[i] in pattern[i..m];
    assert forall b :: b in pattern[i + 1..m] ==> b in pattern[i..m];
  }

  lemma SliceStep(pattern: Bytes, text: Bytes, i: nat, m: nat, j: nat)
    requires i < m <= |pattern| && j < |text|
    ensures j + (m - i) <= |text| ==>
      (text[j..j + (m - i)] == pattern[i..m] <==>
         text[j] == pattern[i] && text[j + 1..j + (m - i)] == pattern[i + 1..m])
  {
    if j + (m - i) <= |text| {
      assert text[j..j + (m - i)] == [text[j]] + text[j + 1..j + (m - i)];
      assert pattern[i..m] == [pattern[i]] + pattern[i + 1..m];
    }
  }

  lemma PlainFront(pattern: Bytes, text: Bytes, m: nat)
    requires m <= |pattern| && Plain(pattern[..m])
    ensures Matches(Tokens(pattern, 0), text) <==> m <= |text| && text[..m] == pattern[..m] && Cell(pattern, text, m, m)
  {
    assert text[0..] == text && pattern[0..m] == pattern[..m];
    CellIsMeaning(pattern, text, 0, 0);
    PlainPart(pattern, text, 0, m, 0);
  }

  lemma PlainBack(pattern: Bytes, text: Bytes, n: nat, j: nat)
    requires n <= |pattern| && j <= |text| && Plain(pattern[n..])
    ensures Cell(pattern, text, n, j) <==> text[j..] == pattern[n..]
  {
    var k := |pattern|;
    assert pattern[n..k] == pattern[n..];
    PlainPart(pattern, text, n, k, j);
    if j + (k - n) == |text| {
      assert text[j..j + (k - n)] == text[j..];
    }
  }

  predicate Between(front: Bytes, middle: Bytes, back: Bytes, text: Bytes) {
    text == front + middle + back
  }

  predicate WholeSegments(piece: Bytes) { piece == [] || piece[|piece| - 1] == SLASH }

  /** The text is `front`, something up to `k`, and `back`. */
  predicate Around(front: Bytes, back: Bytes, text: Bytes, k: nat) {
    |front| <= k <= |text| && text[..|front|] == front && text[k..] == back
  }

  lemma AroundMiddle(front: Bytes, back: Bytes, text: Bytes, k: nat)
    requires Around(front, back, text, k)
    ensures Between(front, text[|front|..k], back, text)
  {
  }

  lemma MiddleAround(front: Bytes, middle: Bytes, back: Bytes, text: Bytes)
    requires Between(front, middle, back, text)
    ensures var k := |front| + |middle|; Around(front, back, text, k) && text[|front|..k] == middle
  {
  }

  lemma SegmentsAround(front: Bytes, back: Bytes, text: Bytes)
    requires Plain(front) && Plain(back) && (front == [] || front[|front| - 1] == SLASH)
    ensures Matches(Tokens(front + [STAR, STAR, SLASH] + back, 0), text) <==>
      exists k: nat :: Around(front, back, text, k) && Boundary(text, |front|, k)
  {
    var pattern, m := front + [STAR, STAR, SLASH] + back, |front|;
    assert pattern[..m] == front && pattern[m + 3..] == back;
    assert front != [] ==> pattern[m - 1] == front[m - 1];
    assert pattern[m] == pattern[m + 1] == STAR && pattern[m + 2] == SLASH && TokenAt(pattern, m).0 == Segments;
    PlainFront(pattern, text, m);
    if m <= |text| {
      SegmentsCell(pattern, text, m, m);
    }
    forall k | m <= k <= |text|
      ensures Cell(pattern, text, m + 3, k) <==> text[k..] == back
    {
      PlainBack(pattern, text, m + 3, k);
    }
  }

  /** `front/`, a double star, `/back`: whole segments or nothing in between. */
  lemma SegmentsBetween(front: Bytes, back: Bytes, text: Bytes)
    requires Plain(front) && Plain(back) && (front == [] || front[|front| - 1] == SLASH)
    ensures Matches(Tokens(front + [STAR, STAR, SLASH] + back, 0), text) <==>
      exists middle :: Between(front, middle, back, text) && WholeSegments(middle)
  {
    SegmentsAround(front, back, text);
    if k: nat :| Around(front, back, text, k) && Boundary(text, |front|, k) {
      AroundMiddle(front, back, text, k);
      SegmentsAtBoundary(text, |front|, k);
      assert WholeSegments(text[|front|..k]);
    }
    if middle :| Between(front, middle, back, text) && WholeSegments(middle) {
      MiddleAround(front, middle, back, text);
      SegmentsAtBoundary(text, |front|, |front| + |middle|);
    }
  }

  lemma FinalDoubleStar(pattern: Bytes, text: Bytes, m: nat)
    requires |pattern| == m + 2 && pattern[m] == pattern[m + 1] == STAR && (m > 0 ==> pattern[m - 1] == SLASH)
    requires Plain(pattern[..m])
    ensures Matches(Tokens(pattern, 0), text) <==> m <= |text| && text[..m] == pattern[..m]
  {
    PlainFront(pattern, text, m);
    if m <= |text| {
      AnythingRecurrence(pattern, text, m, m);
    }
  }

  /** `front/` and a final double star: everything below. */
  lemma AnythingBelow(front: Bytes, text: Bytes)
    requires Plain(front) && (front == [] || front[|front| - 1] == SLASH)
    ensures Matches(Tokens(front + [STAR, STAR], 0), text) <==> front <= text
  {
    var pattern, m := front + [STAR, STAR], |front|;
    assert pattern[..m] == front;
    assert m > 0 ==> pattern[m - 1] == front[m - 1];
    FinalDoubleStar(pattern, text, m);
  }

  /** One star: anything within one segment. */
  lemma StarWithin(front: Bytes, back: Bytes, text: Bytes)
    requires Plain(front) && Plain(back)
    ensures Matches(Tokens(front + [STAR] + back, 0), text) <==>
      exists middle :: Between(front, middle, back, text) && SLASH !in middle
  {
    StarAround(front, back, text);
    if k: nat :| Around(front, back, text, k) && SLASH !in text[|front|..k] {
      AroundMiddle(front, back, text, k);
    }
    if middle :| Between(front, middle, back, text) && SLASH !in middle {
      MiddleAround(front, middle, back, text);
    }
  }

  lemma StarAround(front: Bytes, back: Bytes, text: Bytes)
    requires Plain(front) && Plain(back)
    ensures Matches(Tokens(front + [STAR] + back, 0), text) <==>
      exists k: nat :: Around(front, back, text, k) && SLASH !in text[|front|..k]
  {
    var pattern, m := front + [STAR] + back, |front|;
    assert pattern[..m] == front && pattern[m + 1..] == back;
    assert pattern[m] == STAR && (back != [] ==> pattern[m + 1] == back[0]);
    PlainFront(pattern, text, m);
    forall k | m <= k <= |text|
      ensures Cell(pattern, text, m + 1, k) <==> text[k..] == back
    {
      PlainBack(pattern, text, m + 1, k);
    }
    assert TokenAt(pattern, m) == (Run, m + 1);
  }

  /** A question mark: one byte that is not a slash. */
  lemma QuestionMark(front: Bytes, back: Bytes, text: Bytes)
    requires Plain(front) && Plain(back)
    ensures Matches(Tokens(front + [QUESTION] + back, 0), text) <==>
      exists b: Byte :: Between(front, [b], back, text) && b != SLASH
  {
    var pattern, m := front + [QUESTION] + back, |front|;
    assert pattern[..m] == front && pattern[m + 1..] == back && pattern[m] == QUESTION;
    PlainFront(pattern, text, m);
    if m < |text| {
      ByteRecurrence(pattern, text, m, m);
      PlainBack(pattern, text, m + 1, m + 1);
      if text[..m] == front && text[m + 1..] == back {
        assert text[m..m + 1] == [text[m]];
        AroundMiddle(front, back, text, m + 1);
      }
    } else if m == |text| {
      ByteRecurrence(pattern, text, m, m);
    }
    if b: Byte :| Between(front, [b], back, text) && b != SLASH {
      MiddleAround(front, [b], back, text);
      assert text[m] == text[m..m + 1][0] == b;
    }
  }

  /** Two stars in a row that are not a segment of their own are one. */
  lemma RunTwice(pattern: Bytes, text: Bytes, m: nat, j: nat)
    requires m + 1 < |pattern| && j <= |text|
    requires TokenAt(pattern, m) == (Run, m + 1) && TokenAt(pattern, m + 1) == (Run, m + 2)
    ensures Cell(pattern, text, m, j) <==> exists k :: j <= k <= |text| && SLASH !in text[j..k] && Cell(pattern, text, m + 2, k)
  {
    if Cell(pattern, text, m, j) {
      var k :| j <= k <= |text| && Accepts(Run, text[j..k]) && Cell(pattern, text, m + 1, k);
      var n :| k <= n <= |text| && Accepts(Run, text[k..n]) && Cell(pattern, text, m + 2, n);
      assert text[j..n] == text[j..k] + text[k..n];
    }
    if k :| j <= k <= |text| && SLASH !in text[j..k] && Cell(pattern, text, m + 2, k) {
      assert Accepts(Run, text[k..k]);
      assert Cell(pattern, text, m + 1, k) && Accepts(Run, text[j..k]);
    }
  }

  lemma RunAround(front: Bytes, back: Bytes, text: Bytes)
    requires Plain(front) && Plain(back)
    requires (front != [] && front[|front| - 1] != SLASH) || (back != [] && back[0] != SLASH)
    ensures Matches(Tokens(front + [STAR, STAR] + back, 0), text) <==>
      exists k: nat :: Around(front, back, text, k) && SLASH !in text[|front|..k]
  {
    var pattern, m := front + [STAR, STAR] + back, |front|;
    assert pattern[..m] == front && pattern[m + 2..] == back;
    assert pattern[m] == pattern[m + 1] == STAR;
    assert back != [] ==> pattern[m + 2] == back[0];
    assert front != [] ==> pattern[m - 1] == front[m - 1];
    PlainFront(pattern, text, m);
    if m <= |text| {
      RunTwice(pattern, text, m, m);
    }
    forall k | m <= k <= |text|
      ensures Cell(pattern, text, m + 2, k) <==> text[k..] == back
    {
      PlainBack(pattern, text, m + 2, k);
    }
  }

  /** A double star with anything else beside it stays within one segment. */
  lemma WithinSegment(front: Bytes, back: Bytes, text: Bytes)
    requires Plain(front) && Plain(back)
    requires (front != [] && front[|front| - 1] != SLASH) || (back != [] && back[0] != SLASH)
    ensures Matches(Tokens(front + [STAR, STAR] + back, 0), text) <==>
      exists middle :: Between(front, middle, back, text) && SLASH !in middle
  {
    RunAround(front, back, text);
    if k: nat :| Around(front, back, text, k) && SLASH !in text[|front|..k] {
      AroundMiddle(front, back, text, k);
    }
    if middle :| Between(front, middle, back, text) && SLASH !in middle {
      MiddleAround(front, middle, back, text);
    }
  }

  // ---- the table --------------------------------------------------------------

  function Offset(stride: nat, i: nat): nat { i * stride }

  lemma {:induction false} RowsApart(stride: nat, i: nat, r: nat)
    requires i < r
    ensures Offset(stride, i) + stride <= Offset(stride, r)
    ensures Offset(stride, i + 1) == Offset(stride, i) + stride
    decreases r
  {
    assert (i + 1) * stride == i * stride + stride;
    if r > i + 1 {
      RowsApart(stride, i, r - 1);
      assert r * stride == (r - 1) * stride + stride;
    }
  }

  /** Row `i` of the table holds the truth. */
  ghost predicate RowDone(pattern: Bytes, text: Bytes, table: seq<bool>, i: nat)
    requires i <= |pattern|
  {
    var row := Offset(|text| + 1, i);
    && row + |text| < |table|
    && forall j :: 0 <= j <= |text| ==> table[row + j] == Cell(pattern, text, i, j)
  }

  /** Only the row that starts at `row` may have changed. */
  twostate predicate OnlyRow(table: array<bool>, row: nat, stride: nat)
    reads table
  {
    forall n :: 0 <= n < table.Length && !(row <= n < row + stride) ==> table[n] == old(table[n])
  }

  /** Some later segment starts where `row` is true. */
  ghost predicate LaterIn(text: Bytes, row: seq<bool>, j: nat)
    requires |row| == |text| + 1
  {
    exists k :: j < k <= |text| && text[k - 1] == SLASH && row[k]
  }

  ghost function RowOf(pattern: Bytes, text: Bytes, i: nat): (row: seq<bool>)
    requires i <= |pattern|
    ensures |row| == |text| + 1 && forall j :: 0 <= j <= |text| ==> row[j] == Cell(pattern, text, i, j)
  {
    seq(|text| + 1, j requires 0 <= j <= |text| => Cell(pattern, text, i, j))
  }

  lemma SegmentsRow(pattern: Bytes, text: Bytes, i: nat, j: nat)
    requires i < |pattern| && j <= |text| && TokenAt(pattern, i).0 == Segments
    ensures var row := RowOf(pattern, text, i);
      row[j] <==> RowOf(pattern, text, i + 3)[j] || LaterIn(text, row, j)
  {
    SegmentsRecurrence(pattern, text, i, j);
    var row := RowOf(pattern, text, i);
    assert LaterSegment(pattern, text, i, j) <==> LaterIn(text, row, j) by {
      assert forall k :: j < k <= |text| ==> row[k] == Cell(pattern, text, i, k);
    }
  }

  /** The segment-by-segment branch of `fill_double_star_row`: it fills in the row that the
      recurrence for whole segments describes. */
  method FillSegmentsRow(text: Bytes, row: nat, afterSlash: nat, table: array<bool>, ghost here: seq<bool>)
    requires row + |text| < afterSlash && afterSlash + |text| < table.Length
    requires |here| == |text| + 1
    requires forall j :: 0 <= j <= |text| ==> (here[j] <==> table[afterSlash + j] || LaterIn(text, here, j))
    modifies table
    ensures forall j :: 0 <= j <= |text| ==> table[row + j] == here[j]
    ensures OnlyRow(table, row, |text| + 1)
  {
    ghost var after := table[afterSlash..];
    var laterSegmentMatches := false;
    var j := |text| + 1;
    while j > 0
      invariant 0 <= j <= |text| + 1
      invariant laterSegmentMatches <==> j <= |text| && LaterIn(text, here, j)
      invariant forall c :: j <= c <= |text| ==> table[row + c] == here[c]
      invariant table[afterSlash..] == after
      invariant OnlyRow(table, row, |text| + 1)
    {
      j := j - 1;
      assert LaterIn(text, here, j) <==> j < |text| && (LaterIn(text, here, j + 1) || (text[j] == SLASH && here[j + 1]));
      if j < |text| && text[j] == SLASH {
        laterSegmentMatches := laterSegmentMatches || table[row + j + 1];
      }
      assert table[afterSlash + j] == after[j];
      table[row + j] := table[afterSlash + j] || laterSegmentMatches;
    }
  }

  /** `fill_double_star_row`. */
  method FillDoubleStarRow(pattern: Bytes, text: Bytes, i: nat, table: array<bool>)
    requires i < |pattern| && RecursiveAt(pattern, i)
    requires Offset(|text| + 1, i) + |text| < table.Length
    requires forall r :: i < r <= |pattern| ==> RowDone(pattern, text, table[..], r)
    modifies table
    ensures RowDone(pattern, text, table[..], i)
    ensures OnlyRow(table, Offset(|text| + 1, i), |text| + 1)
  {
    if i + 2 < |pattern| && pattern[i + 2] == SLASH {
      ghost var here := RowOf(pattern, text, i);
      var row, afterSlash := Offset(|text| + 1, i), Offset(|text| + 1, i + 3);
      RowsApart(|text| + 1, i, i + 3);
      assert RowDone(pattern, text, table[..], i + 3);
      forall j | 0 <= j <= |text|
        ensures here[j] <==> table[afterSlash + j] || LaterIn(text, here, j)
      {
        SegmentsRow(pattern, text, i, j);
      }
      FillSegmentsRow(text, row, afterSlash, table, here);
    } else {
      var row := Offset(|text| + 1, i);
      var j := 0;
      while j <= |text|
        invariant j <= |text| + 1
        invariant forall c :: 0 <= c < j ==> table[row + c] == Cell(pattern, text, i, c)
        invariant OnlyRow(table, row, |text| + 1)
      {
        AnythingRecurrence(pattern, text, i, j);
        table[row + j] := true;
        j := j + 1;
      }
    }
  }

  /** One cell of a row without a recursive double star, from the row after it and from the cell
      to its right. */
  predicate PlainCell(byte: Byte, text: Bytes, j: nat, below: bool, diagonal: bool, right: bool)
    requires j <= |text|
  {
    if byte == STAR then below || (j < |text| && text[j] != SLASH && right)
    else if byte == QUESTION then j < |text| && text[j] != SLASH && diagonal
    else j < |text| && text[j] == byte && diagonal
  }

  /** A cell within the row; nothing is beyond its end. */
  predicate CellIn(row: seq<bool>, j: nat) { j < |row| && row[j] }

  lemma PlainRow(pattern: Bytes, text: Bytes, i: nat, j: nat)
    requires i < |pattern| && !RecursiveAt(pattern, i) && j <= |text|
    ensures var here, next := RowOf(pattern, text, i), RowOf(pattern, text, i + 1);
      here[j] <==> PlainCell(pattern[i], text, j, next[j], CellIn(next, j + 1), CellIn(here, j + 1))
  {
    if pattern[i] == STAR {
      RunRecurrence(pattern, text, i, j);
    } else {
      ByteRecurrence(pattern, text, i, j);
    }
  }

  /** The inner loop of `glob_matches_bytes`: it fills in the row that the recurrence describes. */
  method FillPlainRow(byte: Byte, text: Bytes, row: nat, nextRow: nat, table: array<bool>, ghost here: seq<bool>, ghost next: seq<bool>)
    requires row + |text| < nextRow && nextRow + |text| < table.Length && |here| == |next| == |text| + 1
    requires forall j :: 0 <= j <= |text| ==> table[nextRow + j] == next[j]
    requires forall j :: 0 <= j <= |text| ==>
      (here[j] <==> PlainCell(byte, text, j, next[j], CellIn(next, j + 1), CellIn(here, j + 1)))
    modifies table
    ensures forall j :: 0 <= j <= |text| ==> table[row + j] == here[j]
    ensures OnlyRow(table, row, |text| + 1)
  {
    var j := |text| + 1;
    while j > 0
      invariant 0 <= j <= |text| + 1
      invariant forall c :: j <= c <= |text| ==> table[row + c] == here[c]
      invariant OnlyRow(table, row, |text| + 1)
    {
      j := j - 1;
      assert table[nextRow + j] == old(table[nextRow + j]) == next[j];
      assert j < |text| ==> table[nextRow + j + 1] == old(table[nextRow + (j + 1)]) == next[j + 1];
      assert j < |text| ==> table[row + (j + 1)] == here[j + 1];
      var cell :=
        if byte == STAR then table[nextRow + j] || (j < |text| && text[j] != SLASH && table[row + j + 1])
        else if byte == QUESTION then j < |text| && text[j] != SLASH && table[nextRow + j + 1]
        else j < |text| && text[j] == byte && table[nextRow + j + 1];
      assert cell == here[j];
      table[row + j] := cell;
    }
  }

  /** A row without a recursive double star. */
  method FillRow(pattern: Bytes, text: Bytes, i: nat, table: array<bool>)
    requires i < |pattern| && !RecursiveAt(pattern, i)
    requires Offset(|text| + 1, i) + |text| < table.Length
    requires RowDone(pattern, text, table[..], i + 1)
    modifies table
    ensures RowDone(pattern, text, table[..], i)
    ensures OnlyRow(table, Offset(|text| + 1, i), |text| + 1)
  {
    var row, nextRow := Offset(|text| + 1, i), Offset(|text| + 1, i + 1);
    RowsApart(|text| + 1, i, i + 1);
    ghost var here, next := RowOf(pattern, text, i), RowOf(pattern, text, i + 1);
    forall j | 0 <= j <= |text|
      ensures here[j] <==> PlainCell(pattern[i], text, j, next[j], CellIn(next, j + 1), CellIn(here, j + 1))
    {
      PlainRow(pattern, text, i, j);
    }
    assert RowDone(pattern, text, table[..], i + 1);
    FillPlainRow(pattern[i], text, row, nextRow, table, here, next);
  }

  /** `glob_matches_bytes`. */
  method GlobMatches(pattern: Bytes, text: Bytes) returns (matches: bool)
    ensures matches <==>
      && |pattern| <= MAX_GLOB_MATCH_BYTES && |text| <= MAX_GLOB_MATCH_BYTES
      && Matches(Tokens(pattern, 0), text)
  {
    if |pattern| > MAX_GLOB_MATCH_BYTES || |text| > MAX_GLOB_MATCH_BYTES {
      return false;
    }
    var stride := |text| + 1;
    RowsApart(stride, |pattern|, |pattern| + 1);
    var table := new bool[Offset(stride, |pattern| + 1)](_ => false);
    table[Offset(stride, |pattern|) + |text|] := true;
    assert RowDone(pattern, text, table[..], |pattern|);
    var i: nat := |pattern|;
    while i > 0
      invariant i <= |pattern| && table.Length == Offset(stride, |pattern| + 1)
      invariant forall r :: i <= r <= |pattern| ==> RowDone(pattern, text, table[..], r)
    {
      i := i - 1;
      ghost var before := table[..];
      RowsApart(stride, i, |pattern| + 1);
      if RecursiveAt(pattern, i) {
        FillDoubleStarRow(pattern, text, i, table);
      } else {
        FillRow(pattern, text, i, table);
      }
      forall r | i < r <= |pattern|
        ensures RowDone(pattern, text, table[..], r)
      {
        RowsApart(stride, i, r);
        assert RowDone(pattern, text, before, r);
      }
    }
    CellIsMeaning(pattern, text, 0, 0);
    assert text[0..] == text;
    assert Offset(stride, 0) == 0 && RowDone(pattern, text, table[..], 0);
    return table[0];
  }
}
