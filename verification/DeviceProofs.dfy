/**
 Device proof messages and the re-grant offer digest (`device_proofs.rs`). The digest is a
 hash of a message built from the offers sorted by recipient, so what it commits to is the
 preimage studied here.
 */
module DeviceProofs {
  import opened Prelude
  import opened CanonicalFraming

  /** `device_authorization_message`. */
  method DeviceAuthorizationMessage(fields: seq<Bytes>) returns (message: Bytes)
    ensures message == Segments(fields, Little)
  {
    message := [];
    for i := 0 to |fields|
      invariant message == Segments(fields[..i], Little)
    {
      message := message + Length(|fields[i]|, Little);
      message := message + fields[i];
      assert fields[..i + 1] == fields[..i] + [fields[i]];
      SegmentsAppend(fields[..i], fields[i], Little);
    }
    assert fields[..|fields|] == fields;
  }

  /** Different field lists are never signed as the same message. */
  lemma MessageInjective(a: seq<Bytes>, b: seq<Bytes>)
    requires Sized(a) && Sized(b)
    ensures Segments(a, Little) == Segments(b, Little) <==> a == b
  {
    if Segments(a, Little) == Segments(b, Little) {
      SegmentsInjective(a, b, Little);
    }
  }

  // ---- ordering by recipient --------------------------------------------------

  /** Byte-wise string order. */
  predicate Le(a: Bytes, b: Bytes) {
    a == [] || (b != [] && (a[0] < b[0] || (a[0] == b[0] && Le(a[1..], b[1..]))))
  }

  lemma {:induction false} LeTotal(a: Bytes, b: Bytes)
    ensures Le(a, b) || Le(b, a)
    ensures Le(a, b) && Le(b, a) ==> a == b
  {
    if a != [] && b != [] && a[0] == b[0] {
      LeTotal(a[1..], b[1..]);
      assert a == [a[0]] + a[1..] && b == [b[0]] + b[1..];
    }
  }

  lemma {:induction false} LeTransitive(a: Bytes, b: Bytes, c: Bytes)
    requires Le(a, b) && Le(b, c)
    ensures Le(a, c)
  {
    if a != [] && a[0] == b[0] == c[0] {
      LeTransitive(a[1..], b[1..], c[1..]);
    }
  }

  datatype Offer = Offer(recipient: Bytes, verifier: Bytes, ciphertext: Bytes)

  predicate Sorted(s: seq<Offer>) {
    forall i, j :: 0 <= i < j < |s| ==> Le(s[i].recipient, s[j].recipient)
  }

  /** Where a stable sort puts one more offer: after everything not greater. */
  function Insert(s: seq<Offer>, x: Offer): seq<Offer> {
    if s == [] || Le(s[|s| - 1].recipient, x.recipient) then s + [x]
    else Insert(s[..|s| - 1], x) + [s[|s| - 1]]
  }

  /** `sort_by` on the recipient: the stable sort. */
  function StableSort(s: seq<Offer>): seq<Offer> {
    if s == [] then [] else Insert(StableSort(s[..|s| - 1]), s[|s| - 1])
  }

  /** The offers for one recipient, in order. */
  function For(s: seq<Offer>, recipient: Bytes): seq<Offer> {
    if s == [] then []
    else For(s[..|s| - 1], recipient) + if s[|s| - 1].recipient == recipient then [s[|s| - 1]] else []
  }

  lemma {:induction false} InsertMultiset(s: seq<Offer>, x: Offer)
    ensures multiset(Insert(s, x)) == multiset(s) + multiset{x}
  {
    if s != [] && !Le(s[|s| - 1].recipient, x.recipient) {
      var n := |s| - 1;
      InsertMultiset(s[..n], x);
      assert s == s[..n] + [s[n]];
    }
  }

  lemma {:induction false} InsertSorted(s: seq<Offer>, x: Offer)
    requires Sorted(s)
    ensures Sorted(Insert(s, x))
  {
    if s == [] {
    } else if Le(s[|s| - 1].recipient, x.recipient) {
      forall i | 0 <= i < |s|
        ensures Le(s[i].recipient, x.recipient)
      {
        if i < |s| - 1 {
          LeTransitive(s[i].recipient, s[|s| - 1].recipient, x.recipient);
        }
      }
    } else {
      var front, last := s[..|s| - 1], s[|s| - 1];
      var t := Insert(front, x);
      InsertSorted(front, x);
      InsertMultiset(front, x);
      LeTotal(last.recipient, x.recipient);
      forall i | 0 <= i < |t|
        ensures Le(t[i].recipient, last.recipient)
      {
        assert t[i] in multiset(t);
        assert t[i] == x || t[i] in front;
      }
    }
  }

  lemma {:induction false} InsertFor(s: seq<Offer>, x: Offer, r: Bytes)
    ensures For(Insert(s, x), r) == For(s, r) + if x.recipient == r then [x] else []
  {
    if s == [] || Le(s[|s| - 1].recipient, x.recipient) {
      assert (s + [x])[..|s|] == s;
    } else {
      var front, last := s[..|s| - 1], s[|s| - 1];
      var t := Insert(front, x);
      InsertFor(front, x, r);
      assert (t + [last])[..|t|] == t;
      LeTotal(last.recipient, last.recipient);
    }
  }

  lemma {:induction false} StableSortFacts(s: seq<Offer>)
    ensures Sorted(StableSort(s))
    ensures multiset(StableSort(s)) == multiset(s)
    ensures forall r :: For(StableSort(s), r) == For(s, r)
  {
    if s != [] {
      var n := |s| - 1;
      StableSortFacts(s[..n]);
      var t := StableSort(s[..n]);
      InsertSorted(t, s[n]);
      InsertMultiset(t, s[n]);
      forall r
        ensures For(StableSort(s), r) == For(s, r)
      {
        InsertFor(t, s[n], r);
      }
      assert s == s[..n] + [s[n]];
    }
  }

  /** No recipient has two different offers. */
  ghost predicate Consistent(s: seq<Offer>) {
    forall i, j :: 0 <= i < j < |s| && s[i].recipient == s[j].recipient ==> s[i] == s[j]
  }

  lemma HeadLeast(s: seq<Offer>, x: Offer)
    requires Sorted(s) && x in multiset(s)
    ensures Le(s[0].recipient, x.recipient)
  {
    assert x in s;
    var i :| 0 <= i < |s| && s[i] == x;
    LeTotal(x.recipient, x.recipient);
  }

  ghost predicate OnePerRecipient(offers: multiset<Offer>) {
    forall x, y :: x in offers && y in offers && x.recipient == y.recipient ==> x == y
  }

  lemma Tail(s: seq<Offer>)
    requires s != []
    ensures s == [s[0]] + s[1..]
    ensures multiset(s[1..]) == multiset(s) - multiset{s[0]} && s[0] in multiset(s)
    ensures Sorted(s) ==> Sorted(s[1..])
    ensures OnePerRecipient(multiset(s)) ==> OnePerRecipient(multiset(s[1..]))
  {
    assert s == [s[0]] + s[1..];
  }

  lemma {:induction false} SortedUnique(a: seq<Offer>, b: seq<Offer>)
    requires Sorted(a) && Sorted(b) && multiset(a) == multiset(b) && OnePerRecipient(multiset(a))
    ensures a == b
  {
    if a == [] {
      assert multiset(b) == multiset{};
    } else {
      assert b != [] by {
        assert a[0] in multiset(b);
      }
      Tail(a);
      Tail(b);
      HeadLeast(a, b[0]);
      HeadLeast(b, a[0]);
      LeTotal(a[0].recipient, b[0].recipient);
      assert a[0] == b[0];
      SortedUnique(a[1..], b[1..]);
    }
  }

  // ---- the digest preimage ----------------------------------------------------

  function Decimal(n: nat): Bytes {
    if n < 10 then [48 + n] else Decimal(n / 10) + [48 + n % 10]
  }

  function ReadDecimal(b: Bytes): int {
    if b == [] then 0 else 10 * ReadDecimal(b[..|b| - 1]) + (b[|b| - 1] as int - 48)
  }

  /** Decimal text is digits, without a leading zero, that read back as the number. */
  lemma {:induction false} DecimalReads(n: nat)
    ensures var b := Decimal(n);
      && ReadDecimal(b) == n && b != [] && (n > 0 ==> b[0] != 48)
      && forall i :: 0 <= i < |b| ==> 48 <= b[i] <= 57
  {
    if n >= 10 {
      DecimalReads(n / 10);
      var front := Decimal(n / 10);
      assert (front + [48 + n % 10])[..|front|] == front;
    } else {
      assert Decimal(n)[..0] == [];
    }
  }

  const OFFER_DOMAIN: Bytes := Ascii("bowline workspace key regrant offer digest v1")

  function OfferFields(s: seq<Offer>): seq<Bytes> {
    if s == [] then []
    else OfferFields(s[..|s| - 1]) + [s[|s| - 1].recipient, s[|s| - 1].verifier, s[|s| - 1].ciphertext]
  }

  function PreimageFields(offers: seq<Offer>): seq<Bytes> {
    [OFFER_DOMAIN, Decimal(|offers|)] + OfferFields(StableSort(offers))
  }

  function Preimage(offers: seq<Offer>): Bytes {
    Segments(PreimageFields(offers), Little)
  }

  lemma OfferFieldsMore(head: seq<Bytes>, s: seq<Offer>, i: nat)
    requires i < |s|
    ensures head + OfferFields(s[..i + 1]) ==
      head + OfferFields(s[..i]) + [s[i].recipient] + [s[i].verifier] + [s[i].ciphertext]
  {
    assert s[..i + 1][..i] == s[..i];
  }

  lemma SortKeepsLength(offers: seq<Offer>)
    ensures |StableSort(offers)| == |offers|
  {
    StableSortFacts(offers);
    assert |StableSort(offers)| == |multiset(StableSort(offers))| == |multiset(offers)| == |offers|;
  }

  /** `key_regrant_offer_digest`, up to the hash. */
  method OfferDigestPreimage(offers: seq<Offer>) returns (message: Bytes)
    ensures message == Preimage(offers)
  {
    SortKeepsLength(offers);
    var sorted := StableSort(offers);
    var fields := [OFFER_DOMAIN, Decimal(|sorted|)];
    for i := 0 to |sorted|
      invariant fields == [OFFER_DOMAIN, Decimal(|sorted|)] + OfferFields(sorted[..i])
    {
      OfferFieldsMore([OFFER_DOMAIN, Decimal(|sorted|)], sorted, i);
      fields := fields + [sorted[i].recipient];
      fields := fields + [sorted[i].verifier];
      fields := fields + [sorted[i].ciphertext];
    }
    assert sorted[..|sorted|] == sorted;
    message := DeviceAuthorizationMessage(fields);
  }

  lemma {:induction false} OfferFieldsInjective(a: seq<Offer>, b: seq<Offer>)
    requires OfferFields(a) == OfferFields(b)
    ensures a == b
  {
    OfferFieldsLength(a);
    OfferFieldsLength(b);
    if a != [] {
      var n := |a| - 1;
      var x, y := OfferFields(a), OfferFields(b);
      OfferFieldsLength(a[..n]);
      OfferFieldsLength(b[..n]);
      assert x[3 * n] == y[3 * n] && x[3 * n + 1] == y[3 * n + 1] && x[3 * n + 2] == y[3 * n + 2];
      assert a[n] == b[n];
      assert x[..3 * n] == OfferFields(a[..n]) && y[..3 * n] == OfferFields(b[..n]);
      OfferFieldsInjective(a[..n], b[..n]);
      assert a == a[..n] + [a[n]] && b == b[..n] + [b[n]];
    }
  }

  lemma {:induction false} OfferFieldsLength(a: seq<Offer>)
    ensures |OfferFields(a)| == 3 * |a|
  {
    if a != [] {
      OfferFieldsLength(a[..|a| - 1]);
    }
  }

  /** The preimage determines the offers as a multiset, however they were ordered. */
  lemma PreimageDetermines(a: seq<Offer>, b: seq<Offer>)
    requires Sized(PreimageFields(a)) && Sized(PreimageFields(b))
    requires Preimage(a) == Preimage(b)
    ensures StableSort(a) == StableSort(b) && multiset(a) == multiset(b)
  {
    MessageInjective(PreimageFields(a), PreimageFields(b));
    assert PreimageFields(a)[2..] == OfferFields(StableSort(a));
    assert PreimageFields(b)[2..] == OfferFields(StableSort(b));
    OfferFieldsInjective(StableSort(a), StableSort(b));
    StableSortFacts(a);
    StableSortFacts(b);
  }

  /** With one offer per recipient, two offer lists share their preimage exactly when they hold
      the same offers. */
  lemma PreimageIsOfferSet(a: seq<Offer>, b: seq<Offer>)
    requires Consistent(a) && Sized(PreimageFields(a)) && Sized(PreimageFields(b))
    ensures Preimage(a) == Preimage(b) <==> multiset(a) == multiset(b)
  {
    if Preimage(a) == Preimage(b) {
      PreimageDetermines(a, b);
    }
    if multiset(a) == multiset(b) {
      StableSortFacts(a);
      StableSortFacts(b);
      SameSort(a, b);
      assert |a| == |multiset(a)| == |multiset(b)| == |b|;
    }
  }

  lemma SameSort(a: seq<Offer>, b: seq<Offer>)
    requires Consistent(a) && multiset(a) == multiset(b)
    ensures StableSort(a) == StableSort(b)
  {
    StableSortFacts(a);
    StableSortFacts(b);
    forall x, y | x in multiset(a) && y in multiset(a) && x.recipient == y.recipient
      ensures x == y
    {
      assert x in a && y in a;
      var i :| 0 <= i < |a| && a[i] == x;
      var j :| 0 <= j < |a| && a[j] == y;
    }
    SortedUnique(StableSort(a), StableSort(b));
  }

  lemma {:induction false} ForConcat(a: seq<Offer>, b: seq<Offer>, r: Bytes)
    ensures For(a + b, r) == For(a, r) + For(b, r)
  {
    if b == [] {
      assert a + b == a;
    } else {
      var n := |b| - 1;
      assert (a + b)[..|a| + n] == a + b[..n];
      ForConcat(a, b[..n], r);
    }
  }

  /** Changing the `i`-th offer, but not its recipient nor anything earlier, changes the offers
      listed for that recipient. */
  lemma ForDiffers(a: seq<Offer>, b: seq<Offer>, i: nat)
    requires i < |a| && i < |b| && a[..i] == b[..i]
    requires a[i].recipient == b[i].recipient && a[i] != b[i]
    ensures For(a, a[i].recipient) != For(b, a[i].recipient)
  {
    var r, k := a[i].recipient, |For(a[..i], a[i].recipient)|;
    ForAt(a, i);
    ForAt(b, i);
    assert For(a, r)[k] != For(b, r)[k];
  }

  lemma ForAt(a: seq<Offer>, i: nat)
    requires i < |a|
    ensures var r := a[i].recipient;
      |For(a[..i], r)| < |For(a, r)| && For(a, r)[|For(a[..i], r)|] == a[i]
  {
    var r := a[i].recipient;
    assert a == a[..i + 1] + a[i + 1..];
    ForConcat(a[..i + 1], a[i + 1..], r);
    assert a[..i + 1][..i] == a[..i];
  }

  /** Without that, order shows: swapping two different offers for one recipient changes the
      preimage. So the digest ignores order exactly for consistent offer lists. */
  lemma OrderShows(a: seq<Offer>, i: nat, j: nat)
    requires i < j < |a| && a[i].recipient == a[j].recipient && a[i] != a[j]
    requires Sized(PreimageFields(a)) && Sized(PreimageFields(a[i := a[j]][j := a[i]]))
    ensures multiset(a[i := a[j]][j := a[i]]) == multiset(a)
    ensures Preimage(a[i := a[j]][j := a[i]]) != Preimage(a)
  {
    var b := a[i := a[j]][j := a[i]];
    assert b[..i] == a[..i];
    ForDiffers(a, b, i);
    StableSortFacts(a);
    StableSortFacts(b);
    if Preimage(a) == Preimage(b) {
      PreimageDetermines(a, b);
    }
  }
}
