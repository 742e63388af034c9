/**
 Canonical, length-prefixed byte strings for cryptographic commitments
 (`canonical_framing.rs`), the associated data built from them (`envelope.rs`,
 `recovery_preimage/identity.rs`) and the device proof messages (`device_proofs.rs`).
 Strings are their UTF-8 bytes; every length fits 64 bits.
 */
module CanonicalFraming {
  import opened Prelude

  // ---- fixed-width integers ---------------------------------------------------

  function Pow256(width: nat): (r: nat)
    ensures r > 0
  {
    if width == 0 then 1 else 256 * Pow256(width - 1)
  }

  /** Big-endian. */
  function ToBe(n: nat, width: nat): (b: Bytes)
    ensures |b| == width
  {
    if width == 0 then [] else ToBe(n / 256, width - 1) + [n % 256]
  }

  function FromBe(b: Bytes): nat {
    if b == [] then 0 else 256 * FromBe(b[..|b| - 1]) + b[|b| - 1]
  }

  lemma {:induction false} BeRoundTrip(n: nat, width: nat)
    requires n < Pow256(width)
    ensures FromBe(ToBe(n, width)) == n
  {
    if width > 0 {
      BeRoundTrip(n / 256, width - 1);
      assert ToBe(n, width)[..width - 1] == ToBe(n / 256, width - 1);
    }
  }

  /** Little-endian. */
  function ToLe(n: nat, width: nat): (b: Bytes)
    ensures |b| == width
  {
    if width == 0 then [] else [n % 256] + ToLe(n / 256, width - 1)
  }

  function FromLe(b: Bytes): nat {
    if b == [] then 0 else b[0] + 256 * FromLe(b[1..])
  }

  lemma {:induction false} LeRoundTrip(n: nat, width: nat)
    requires n < Pow256(width)
    ensures FromLe(ToLe(n, width)) == n
  {
    if width > 0 {
      LeRoundTrip(n / 256, width - 1);
      assert ToLe(n, width)[1..] == ToLe(n / 256, width - 1);
    }
  }

  /** Byte `i` from the most significant, or from the least significant end. */
  lemma {:induction false} DigitAt(n: nat, width: nat, i: nat)
    requires i < width
    ensures ToBe(n, width)[width - 1 - i] as nat == n / Pow256(i) % 256
    ensures ToLe(n, width)[i] as nat == n / Pow256(i) % 256
  {
    if i > 0 {
      DigitAt(n / 256, width - 1, i - 1);
      DivideTwice(n, Pow256(i - 1));
    }
  }

  lemma DivideTwice(n: nat, d: nat)
    requires d > 0
    ensures n / 256 / d == n / (256 * d)
  {
    var q, r := n / 256 / d, n / 256 % d;
    assert n == 256 * (d * q + r) + n % 256;
    assert 256 * (d * q + r) == (256 * d) * q + 256 * r;
    DivideUnique(n, 256 * d, q, 256 * r + n % 256);
  }

  lemma DivideUnique(n: nat, d: nat, q: nat, r: nat)
    requires r < d && n == d * q + r
    ensures n / d == q
  {
    var p := n / d;
    assert n == d * p + n % d;
    assert d * (p - q) == r - n % d;
    AtLeast(d, p - q);
  }

  lemma AtLeast(d: int, k: int)
    requires d >= 0
    ensures k >= 1 ==> d * k >= d
    ensures k <= -1 ==> d * k <= -d
  {
    assert k >= 1 ==> d * (k - 1) >= 0;
    assert k <= -1 ==> d * (-1 - k) >= 0;
  }

  lemma Pow256Values()
    ensures Pow256(2) == 0x1_0000 && Pow256(4) == U32_MAX + 1 && Pow256(8) == U64_MAX + 1
  {
    assert Pow256(3) == 256 * Pow256(2);
    assert Pow256(5) == 256 * Pow256(4) && Pow256(6) == 256 * Pow256(5);
    assert Pow256(7) == 256 * Pow256(6);
  }

  // ---- length-prefixed segments -----------------------------------------------

  datatype Endian = Big | Little

  /** An 8-byte length. */
  function Length(n: nat, endian: Endian): (b: Bytes)
    ensures |b| == 8
  {
    match endian
    case Big => ToBe(n, 8)
    case Little => ToLe(n, 8)
  }

  function ReadLength(b: Bytes, endian: Endian): nat {
    match endian
    case Big => FromBe(b)
    case Little => FromLe(b)
  }

  lemma LengthRoundTrip(n: nat, endian: Endian)
    requires n <= U64_MAX
    ensures ReadLength(Length(n, endian), endian) == n
  {
    Pow256Values();
    match endian
    case Big => BeRoundTrip(n, 8);
    case Little => LeRoundTrip(n, 8);
  }

  predicate Sized(segments: seq<Bytes>) {
    forall s :: s in segments ==> |s| <= U64_MAX
  }

  function Segments(segments: seq<Bytes>, endian: Endian): Bytes {
    if segments == [] then []
    else Length(|segments[0]|, endian) + segments[0] + Segments(segments[1..], endian)
  }

  /** The only reading of a byte string as segments. */
  function Parse(b: Bytes, endian: Endian): Option<seq<Bytes>>
    decreases |b|
  {
    if b == [] then Some([])
    else if |b| < 8 then None
    else
      var n := ReadLength(b[..8], endian);
      if |b| < 8 + n then None
      else
        var rest := Parse(b[8 + n..], endian);
        if rest.None? then None else Some([b[8..8 + n]] + rest.value)
  }

  lemma {:induction false} ParseSegments(segments: seq<Bytes>, endian: Endian)
    requires Sized(segments)
    ensures Parse(Segments(segments, endian), endian) == Some(segments)
  {
    if segments != [] {
      var s, rest := segments[0], Segments(segments[1..], endian);
      assert s in segments;
      ParseSegments(segments[1..], endian);
      ParseFirst(s, rest, endian);
      assert [s] + segments[1..] == segments;
    }
  }

  lemma ParseFirst(s: Bytes, rest: Bytes, endian: Endian)
    requires |s| <= U64_MAX && Parse(rest, endian).Some?
    ensures Parse(Length(|s|, endian) + s + rest, endian) == Some([s] + Parse(rest, endian).value)
  {
    var b := Length(|s|, endian) + s + rest;
    assert b[..8] == Length(|s|, endian);
    assert b[8..8 + |s|] == s;
    assert b[8 + |s|..] == rest;
    LengthRoundTrip(|s|, endian);
  }

  /** No two segment lists share their bytes. */
  lemma SegmentsInjective(a: seq<Bytes>, b: seq<Bytes>, endian: Endian)
    requires Sized(a) && Sized(b) && Segments(a, endian) == Segments(b, endian)
    ensures a == b
  {
    ParseSegments(a, endian);
    ParseSegments(b, endian);
  }

  lemma {:induction false} SegmentsAppend(a: seq<Bytes>, s: Bytes, endian: Endian)
    ensures Segments(a + [s], endian) == Segments(a, endian) + Length(|s|, endian) + s
  {
    if a == [] {
      assert Segments([s], endian) == Length(|s|, endian) + s + Segments([], endian);
      assert [] + [s] == [s];
    } else {
      assert (a + [s])[1..] == a[1..] + [s];
      SegmentsAppend(a[1..], s, endian);
    }
  }

  // ---- the frame builder ------------------------------------------------------

  const FRAMING_VERSION: Byte := 1

  datatype Field = Field(name: Bytes, value: Bytes)

  function FieldSegments(fields: seq<Field>): seq<Bytes> {
    if fields == [] then [] else FieldSegments(fields[..|fields| - 1]) + [fields[|fields| - 1].name, fields[|fields| - 1].value]
  }

  /** The bytes of a frame: version, domain, then a label and a value per field. */
  function FrameBytes(domain: Bytes, fields: seq<Field>): Bytes {
    [FRAMING_VERSION] + Segments([domain] + FieldSegments(fields), Big)
  }

  predicate FrameSized(domain: Bytes, fields: seq<Field>) {
    |domain| <= U64_MAX && forall f :: f in fields ==> |f.name| <= U64_MAX && |f.value| <= U64_MAX
  }

  lemma {:induction false} FieldSegmentsSized(domain: Bytes, fields: seq<Field>)
    requires FrameSized(domain, fields)
    ensures Sized([domain] + FieldSegments(fields))
  {
    if fields != [] {
      var n := |fields| - 1;
      assert fields[n] in fields;
      FieldSegmentsSized(domain, fields[..n]);
      assert [domain] + FieldSegments(fields) == ([domain] + FieldSegments(fields[..n])) + [fields[n].name, fields[n].value];
    }
  }

  lemma {:induction false} FieldSegmentsInjective(a: seq<Field>, b: seq<Field>)
    requires FieldSegments(a) == FieldSegments(b)
    ensures a == b
  {
    FieldSegmentsLength(a);
    FieldSegmentsLength(b);
    if a != [] {
      var n := |a| - 1;
      var x, y := FieldSegments(a), FieldSegments(b);
      assert x[2 * n] == a[n].name && x[2 * n + 1] == a[n].value && y[2 * n] == b[n].name && y[2 * n + 1] == b[n].value;
      assert x[..2 * n] == FieldSegments(a[..n]) && y[..2 * n] == FieldSegments(b[..n]);
      FieldSegmentsInjective(a[..n], b[..n]);
      assert a == a[..n] + [a[n]] && b == b[..n] + [b[n]];
    }
  }

  lemma {:induction false} FieldSegmentsLength(a: seq<Field>)
    ensures |FieldSegments(a)| == 2 * |a|
    ensures a != [] ==> |FieldSegments(a[..|a| - 1])| == 2 * |a| - 2
  {
    if a != [] {
      FieldSegmentsLength(a[..|a| - 1]);
    }
  }

  /** Frames are uniquely decodable: equal bytes, equal domain and equal fields. */
  lemma FrameInjective(d1: Bytes, f1: seq<Field>, d2: Bytes, f2: seq<Field>)
    requires FrameSized(d1, f1) && FrameSized(d2, f2)
    requires FrameBytes(d1, f1) == FrameBytes(d2, f2)
    ensures d1 == d2 && f1 == f2
  {
    FieldSegmentsSized(d1, f1);
    FieldSegmentsSized(d2, f2);
    var a, b := [d1] + FieldSegments(f1), [d2] + FieldSegments(f2);
    assert Segments(a, Big) == FrameBytes(d1, f1)[1..] == FrameBytes(d2, f2)[1..] == Segments(b, Big);
    SegmentsInjective(a, b, Big);
    assert a[0] == b[0] && a[1..] == FieldSegments(f1) && b[1..] == FieldSegments(f2);
    FieldSegmentsInjective(f1, f2);
  }

  /** One more field adds its two segments at the end. */
  lemma FrameAppend(domain: Bytes, fields: seq<Field>, f: Field)
    ensures FrameBytes(domain, fields + [f]) ==
      FrameBytes(domain, fields) + Length(|f.name|, Big) + f.name + Length(|f.value|, Big) + f.value
  {
    var before := [domain] + FieldSegments(fields);
    FieldSegmentsMore(domain, fields, f);
    SegmentsAppend(before, f.name, Big);
    SegmentsAppend(before + [f.name], f.value, Big);
    Regroup([FRAMING_VERSION], Segments(before, Big), Length(|f.name|, Big), f.name, Length(|f.value|, Big), f.value);
  }

  lemma FieldSegmentsMore(domain: Bytes, fields: seq<Field>, f: Field)
    ensures [domain] + FieldSegments(fields + [f]) == [domain] + FieldSegments(fields) + [f.name] + [f.value]
  {
    assert (fields + [f])[..|fields|] == fields;
  }

  lemma FieldSegmentsAt(fields: seq<Field>, n: nat)
    requires n < |fields|
    ensures FieldSegments(fields[..n + 1]) == FieldSegments(fields[..n]) + [fields[n].name, fields[n].value]
  {
    assert fields[..n + 1][..n] == fields[..n];
  }

  lemma Regroup(v: Bytes, s: Bytes, a: Bytes, b: Bytes, c: Bytes, d: Bytes)
    ensures v + (s + a + b + c + d) == (v + s) + a + b + c + d
  {
  }

  class CanonicalFrame {
    var bytes: Bytes
    ghost const domain: Bytes
    ghost var fields: seq<Field>

    ghost predicate Valid()
      reads this
    {
      bytes == FrameBytes(domain, fields)
    }

    constructor (domain: Bytes)
      ensures Valid() && this.domain == domain && fields == []
    {
      this.domain, fields := domain, [];
      bytes := [FRAMING_VERSION] + Length(|domain|, Big) + domain;
      new;
      assert [domain] + FieldSegments([]) == [] + [domain];
      SegmentsAppend([], domain, Big);
    }

    /** `push_segment`. */
    method PushSegment(segment: Bytes)
      modifies this`bytes
      ensures bytes == old(bytes) + Length(|segment|, Big) + segment
    {
      bytes := bytes + Length(|segment|, Big);
      bytes := bytes + segment;
    }

    /** `bytes_field`, which every typed field goes through. */
    method BytesField(name: Bytes, value: Bytes)
      requires Valid()
      modifies this
      ensures Valid() && fields == old(fields) + [Field(name, value)]
    {
      FrameAppend(domain, fields, Field(name, value));
      PushSegment(name);
      PushSegment(value);
      fields := fields + [Field(name, value)];
    }
  }

  // ---- associated data --------------------------------------------------------

  datatype ObjectKind = WorkspaceFileV1 | WorkspaceManifestV1

  /** ASCII text as bytes. */
  function Ascii(s: string): Bytes {
    seq(|s|, i requires 0 <= i < |s| => s[i] as int % 256)
  }

  function KindToken(kind: ObjectKind): Bytes {
    match kind
    case WorkspaceFileV1 => Ascii("workspace-file-v1")
    case WorkspaceManifestV1 => Ascii("workspace-manifest-v1")
  }

  datatype EnvelopeContext = EnvelopeContext(
    workspaceIdHash: Bytes,
    objectKind: ObjectKind,
    objectId: Bytes,
    recordId: Bytes,
    keyEpoch: nat,
    formatVersion: nat)

  predicate ContextSized(c: EnvelopeContext) {
    && |c.workspaceIdHash| <= U64_MAX && |c.objectId| <= U64_MAX && |c.recordId| <= U64_MAX
    && c.keyEpoch <= U32_MAX && c.formatVersion <= 0xFFFF
  }

  function ContextFields(c: EnvelopeContext): seq<Field> {
    [ Field(Ascii("workspace-id-hash"), c.workspaceIdHash),
      Field(Ascii("object-kind"), KindToken(c.objectKind)),
      Field(Ascii("object-id"), c.objectId),
      Field(Ascii("record-id"), c.recordId),
      Field(Ascii("key-epoch"), ToBe(c.keyEpoch, 4)),
      Field(Ascii("format-version"), ToBe(c.formatVersion, 2)) ]
  }

  const ENVELOPE_AAD_DOMAIN: Bytes := Ascii("bowline-storage-envelope-v2")

  /** `EnvelopeContext::associated_data`. */
  method AssociatedData(c: EnvelopeContext) returns (data: Bytes)
    ensures data == FrameBytes(ENVELOPE_AAD_DOMAIN, ContextFields(c))
  {
    var frame := new CanonicalFrame(ENVELOPE_AAD_DOMAIN);
    frame.BytesField(Ascii("workspace-id-hash"), c.workspaceIdHash);
    frame.BytesField(Ascii("object-kind"), KindToken(c.objectKind));
    frame.BytesField(Ascii("object-id"), c.objectId);
    frame.BytesField(Ascii("record-id"), c.recordId);
    frame.BytesField(Ascii("key-epoch"), ToBe(c.keyEpoch, 4));
    frame.BytesField(Ascii("format-version"), ToBe(c.formatVersion, 2));
    assert frame.fields == ContextFields(c);
    return frame.bytes;
  }

  /** The associated data, segment by segment. */
  lemma AssociatedDataLayout(c: EnvelopeContext)
    ensures FrameBytes(ENVELOPE_AAD_DOMAIN, ContextFields(c)) == [1] + Segments([
      Ascii("bowline-storage-envelope-v2"),
      Ascii("workspace-id-hash"), c.workspaceIdHash,
      Ascii("object-kind"), KindToken(c.objectKind),
      Ascii("object-id"), c.objectId,
      Ascii("record-id"), c.recordId,
      Ascii("key-epoch"), ToBe(c.keyEpoch, 4),
      Ascii("format-version"), ToBe(c.formatVersion, 2)], Big)
  {
    SixFields(ENVELOPE_AAD_DOMAIN, ContextFields(c));
  }

  lemma SixFields(domain: Bytes, f: seq<Field>)
    requires |f| == 6
    ensures [domain] + FieldSegments(f) == [domain,
      f[0].name, f[0].value, f[1].name, f[1].value, f[2].name, f[2].value,
      f[3].name, f[3].value, f[4].name, f[4].value, f[5].name, f[5].value]
  {
    FieldSegmentsAt(f, 0);
    FieldSegmentsAt(f, 1);
    FieldSegmentsAt(f, 2);
    FieldSegmentsAt(f, 3);
    FieldSegmentsAt(f, 4);
    FieldSegmentsAt(f, 5);
    assert f[..6] == f && FieldSegments(f[..0]) == [];
  }

  /** Two contexts give the same associated data only if they are equal. */
  lemma AssociatedDataInjective(a: EnvelopeContext, b: EnvelopeContext)
    requires ContextSized(a) && ContextSized(b)
    requires FrameBytes(ENVELOPE_AAD_DOMAIN, ContextFields(a)) == FrameBytes(ENVELOPE_AAD_DOMAIN, ContextFields(b))
    ensures a == b
  {
    FrameInjective(ENVELOPE_AAD_DOMAIN, ContextFields(a), ENVELOPE_AAD_DOMAIN, ContextFields(b));
    FieldsDetermine(a, b);
  }

  lemma FieldsDetermine(a: EnvelopeContext, b: EnvelopeContext)
    requires ContextSized(a) && ContextSized(b) && ContextFields(a) == ContextFields(b)
    ensures a == b
  {
    var x, y := ContextFields(a), ContextFields(b);
    assert forall i :: 0 <= i < 6 ==> x[i].value == y[i].value;
    Pow256Values();
    BeRoundTrip(a.keyEpoch, 4);
    BeRoundTrip(b.keyEpoch, 4);
    BeRoundTrip(a.formatVersion, 2);
    BeRoundTrip(b.formatVersion, 2);
    assert |KindToken(a.objectKind)| == |KindToken(b.objectKind)|;
  }
}
