/** The regular expression that documents the private-address scanner
    (`xtask/src/readiness.rs`, `xtask/src/evidence_bind.rs`), and how the two differ. */
module AddressPattern {
  import opened Prelude
  import opened Refs

  predicate DigitsAt(s: Str, p: nat, n: nat) {
    p + n <= |s| && forall i :: p <= i < p + n ==> IsDigit(s[i])
  }

  predicate DotAt(s: Str, p: nat) {
    p < |s| && s[p] == DOT
  }

  predicate PairOf(s: Str, p: nat, n: nat, m: nat) {
    DigitsAt(s, p, n) && DotAt(s, p + n) && DigitsAt(s, p + n + 1, m)
  }

  /** `\d{1,3}\.\d{1,3}`. */
  predicate PairAt(s: Str, p: nat) {
    exists n: nat, m: nat :: 1 <= n <= 3 && 1 <= m <= 3 && PairOf(s, p, n, m)
  }

  /** A literal octet and its dot. */
  predicate OctetAt(s: Str, p: nat, octet: Str) {
    p + |octet| <= |s| && s[p..p + |octet|] == octet && DotAt(s, p + |octet|)
  }

  /** `1[6-9]|2[0-9]|3[01]`. */
  predicate IsSixteenToThirtyOne(octet: Str) {
    && |octet| == 2
    && (|| (octet[0] == '1' as int && '6' as int <= octet[1] <= '9' as int)
        || (octet[0] == '2' as int && IsDigit(octet[1]))
        || (octet[0] == '3' as int && '0' as int <= octet[1] <= '1' as int))
  }

  /** One of the expression's five alternatives spells `s[p..q]`. */
  predicate PrefixAt(s: Str, p: nat, q: nat) {
    || (q == p + 4 && OctetAt(s, p, Bytes("127")))
    || (q == p + 3 && OctetAt(s, p, Bytes("10")))
    || (q == p + 8 && OctetAt(s, p, Bytes("192")) && OctetAt(s, p + 4, Bytes("168")))
    || (q == p + 7 && OctetAt(s, p, Bytes("172")) && p + 6 <= |s| && IsSixteenToThirtyOne(s[p + 4..p + 6]) && DotAt(s, p + 6))
    || (q == p + 8 && OctetAt(s, p, Bytes("169")) && OctetAt(s, p + 4, Bytes("254")))
  }

  /** The expression matches at `p`. */
  predicate MatchesAt(s: Str, p: nat) {
    exists q :: p <= q <= |s| && PrefixAt(s, p, q) && PairAt(s, q)
  }

  predicate Matches(s: Str) {
    exists p :: 0 <= p <= |s| && MatchesAt(s, p)
  }

  lemma {:induction false} RunEndIs(s: Str, p: nat, n: nat)
    requires DigitsAt(s, p, n) && (p + n < |s| ==> !IsDigit(s[p + n]))
    ensures RunEnd(s, p) == p + n
    decreases n
  {
    if n > 0 {
      RunEndIs(s, p + 1, n - 1);
    }
  }

  lemma LiteralDigits(octet: Str)
    requires octet in {Bytes("127"), Bytes("10"), Bytes("192"), Bytes("168"), Bytes("172"), Bytes("169"), Bytes("254")}
    ensures forall i :: 0 <= i < |octet| ==> IsDigit(octet[i])
  {
  }

  /** A literal octet is a whole run of digits. */
  lemma OctetIsRun(s: Str, p: nat, octet: Str)
    requires OctetAt(s, p, octet) && forall i :: 0 <= i < |octet| ==> IsDigit(octet[i])
    ensures RunEnd(s, p) == p + |octet| < |s| && s[p + |octet|] == DOT
  {
    forall i | p <= i < p + |octet| ensures IsDigit(s[i]) {
      assert s[i] == s[p..p + |octet|][i - p];
    }
    RunEndIs(s, p, |octet|);
  }

  lemma RunIsOctet(s: Str, p: nat, octet: Str)
    requires p <= |s| && RunEnd(s, p) < |s| && s[RunEnd(s, p)] == DOT && s[p..RunEnd(s, p)] == octet
    ensures OctetAt(s, p, octet)
  {
  }

  /** The second octet of a pair at `p` does not run on past three digits. */
  predicate PairEnds(s: Str, p: nat)
    requires p <= |s|
  {
    var e := RunEnd(s, p);
    e < |s| && RunEnd(s, e + 1) - (e + 1) <= 3
  }

  /** The two trailing octets as the scanner wants them are a pair for the expression that ends
      within three digits. */
  lemma TwoOctetsArePair(s: Str, p: nat)
    requires p <= |s|
    ensures TwoOctetsAt(s, p) <==> PairAt(s, p) && PairEnds(s, p)
  {
    if TwoOctetsAt(s, p) {
      var e := RunEnd(s, p);
      var f := RunEnd(s, e + 1);
      assert PairOf(s, p, e - p, f - e - 1);
    }
    if PairAt(s, p) && PairEnds(s, p) {
      PairIsTwoOctets(s, p);
    }
  }

  lemma PairIsTwoOctets(s: Str, p: nat)
    requires p <= |s| && PairAt(s, p) && PairEnds(s, p)
    ensures TwoOctetsAt(s, p)
  {
    var n: nat, m: nat :| 1 <= n <= 3 && 1 <= m <= 3 && PairOf(s, p, n, m);
    RunEndIs(s, p, n);
    assert IsDigit(s[p + n + 1]);
    var f := RunEnd(s, p + n + 1);
    assert forall c :: c in s[p..p + n] ==> IsDigit(c);
    assert forall c :: c in s[p + n + 1..f] ==> IsDigit(c);
  }

  lemma SixteenToThirtyOne(octet: Str)
    requires |octet| == 2 && IsDigit(octet[0]) && IsDigit(octet[1])
    ensures IsSixteenToThirtyOne(octet) <==> MatchesOctetRange(octet, 16, 31)
  {
    assert octet[..1] == [octet[0]] && octet[..1][..0] == [];
    assert DecimalValue(octet[..1]) == octet[0] as int - '0' as int;
    assert DecimalValue(octet) == 10 * (octet[0] as int - '0' as int) + (octet[1] as int - '0' as int);
  }

  /** Of three digits only those padded with a zero are in the range, and of one digit none. */
  lemma PaddedRange(octet: Str)
    requires |octet| != 2 && forall i :: 0 <= i < |octet| ==> IsDigit(octet[i])
    ensures MatchesOctetRange(octet, 16, 31) <==>
              |octet| == 3 && octet[0] == '0' as int && IsSixteenToThirtyOne(octet[1..])
  {
    if |octet| == 1 {
      assert octet[..0] == [];
    } else if |octet| == 3 {
      var tail := octet[1..];
      SixteenToThirtyOne(tail);
      assert octet[..1][..0] == [] && octet[..2][..1] == octet[..1];
      assert tail[..1][..0] == [] && tail[..1] == [octet[1]];
      assert DecimalValue(tail[..1]) == octet[1] as int - '0' as int;
      assert DecimalValue(octet[..1]) == octet[0] as int - '0' as int;
      assert DecimalValue(octet[..2]) == 10 * DecimalValue(octet[..1]) + (octet[1] as int - '0' as int);
      assert DecimalValue(octet) == 100 * (octet[0] as int - '0' as int) + DecimalValue(tail);
    }
  }

  // ----- Where the two agree ---------------------------------------------------------------

  predicate StartsNumber(s: Str, p: nat)
    requires p <= |s|
  {
    p == 0 || !IsDigit(s[p - 1])
  }

  /** A match of the expression that starts a number and whose last octet ends within three digits. */
  predicate AlignedMatchAt(s: Str, p: nat)
    requires p <= |s|
  {
    StartsNumber(s, p) && exists q :: p <= q <= |s| && PrefixAt(s, p, q) && PairAt(s, q) && PairEnds(s, q)
  }

  /** An address in 172.16.0.0/12 whose second octet is padded with a zero to three digits. */
  predicate PaddedAddressAt(s: Str, p: nat)
    requires p <= |s|
  {
    && StartsNumber(s, p)
    && OctetAt(s, p, Bytes("172"))
    && p + 7 <= |s| && s[p + 4] == '0' as int && IsSixteenToThirtyOne(s[p + 5..p + 7])
    && DotAt(s, p + 7)
    && PairAt(s, p + 8) && PairEnds(s, p + 8)
  }

  lemma Lengths()
    ensures |Bytes("127")| == 3 && |Bytes("10")| == 2 && |Bytes("192")| == 3 && |Bytes("168")| == 3
    ensures |Bytes("172")| == 3 && |Bytes("169")| == 3 && |Bytes("254")| == 3
  {
  }

  lemma ScannedOne(s: Str, p: nat, octet: Str)
    requires octet == Bytes("127") || octet == Bytes("10")
    requires OctetAt(s, p, octet) && StartsNumber(s, p)
    requires PairAt(s, p + |octet| + 1) && PairEnds(s, p + |octet| + 1)
    ensures PrivateAddressAt(s, p)
  {
    LiteralDigits(octet);
    OctetIsRun(s, p, octet);
    PairIsTwoOctets(s, p + |octet| + 1);
    hide Bytes, TwoOctetsAt, PairAt;
  }

  lemma ScannedTwo(s: Str, p: nat, first: Str, second: Str)
    requires first == Bytes("192") || first == Bytes("172") || first == Bytes("169")
    requires TwoOctetPrefix(first, second) && forall i :: 0 <= i < |second| ==> IsDigit(second[i])
    requires OctetAt(s, p, first) && OctetAt(s, p + 4, second) && StartsNumber(s, p)
    requires PairAt(s, p + 4 + |second| + 1) && PairEnds(s, p + 4 + |second| + 1)
    ensures PrivateAddressAt(s, p)
  {
    LiteralDigits(first);
    Lengths();
    hide Bytes, TwoOctetsAt, PairAt, TwoOctetPrefix, RunEnd, PairEnds, OneOctetPrefix, IsSchemaOctet;
    OctetIsRun(s, p, first);
    OctetIsRun(s, p + 4, second);
    PairIsTwoOctets(s, p + 4 + |second| + 1);
    assert s[p..p + 3] == first && s[p + 4..p + 4 + |second|] == second;
  }

  lemma NoOtherThan172(s: Str, p: nat)
    requires OctetAt(s, p, Bytes("172"))
    ensures !OctetAt(s, p, Bytes("127")) && !OctetAt(s, p, Bytes("10"))
    ensures !OctetAt(s, p, Bytes("192")) && !OctetAt(s, p, Bytes("169"))
  {
    Literals();
    OctetBytes(s, p, Bytes("172"));
    hide OctetAt, Bytes;
    NotAt(s, p, Bytes("127"), 1);
    NotAt(s, p, Bytes("10"), 1);
    NotAt(s, p, Bytes("192"), 1);
    NotAt(s, p, Bytes("169"), 1);
  }

  lemma TwoDigitOctet(s: Str, p: nat)
    requires p + 2 <= |s| && IsSixteenToThirtyOne(s[p..p + 2]) && DotAt(s, p + 2)
    ensures RunEnd(s, p) == p + 2 && OctetAt(s, p, s[p..p + 2])
  {
    assert s[p..p + 2][0] == s[p] && s[p..p + 2][1] == s[p + 1];
    RunEndIs(s, p, 2);
  }

  /** Only the alternative for 172 starts with 172, and it takes exactly two digits more. */
  lemma TwoDigitsAfter172(s: Str, p: nat, q: nat)
    requires PrefixAt(s, p, q) && OctetAt(s, p, Bytes("172"))
    ensures p + 6 < |s| && RunEnd(s, p + 4) == p + 6 && OctetAt(s, p + 4, s[p + 4..p + 6])
    ensures IsSixteenToThirtyOne(s[p + 4..p + 6])
  {
    NoOtherThan172(s, p);
    hide OctetAt, Bytes;
    TwoDigitOctet(s, p + 4);
  }

  /** An aligned match is scanned, and is not the padded case. */
  lemma AlignedIsScanned(s: Str, p: nat)
    requires p <= |s| && AlignedMatchAt(s, p)
    ensures PrivateAddressAt(s, p)
    ensures OctetAt(s, p, Bytes("172")) ==> RunEnd(s, p + 4) == p + 6
  {
    hide Bytes, PairAt, PrivateAddressAt, PairEnds, RunEnd, StartsNumber, IsSixteenToThirtyOne;
    Lengths();
    var q :| p <= q <= |s| && PrefixAt(s, p, q) && PairAt(s, q) && PairEnds(s, q);
    if OctetAt(s, p, Bytes("172")) {
      TwoDigitsAfter172(s, p, q);
      hide OctetAt;
      var octet := s[p + 4..p + 6];
      assert q == p + 7;
      RangeDigits(octet);
      ScannedTwo(s, p, Bytes("172"), octet);
    } else if OctetAt(s, p, Bytes("127")) && q == p + 4 {
      ScannedOne(s, p, Bytes("127"));
    } else if OctetAt(s, p, Bytes("10")) && q == p + 3 {
      ScannedOne(s, p, Bytes("10"));
    } else if OctetAt(s, p, Bytes("192")) && OctetAt(s, p + 4, Bytes("168")) {
      LiteralDigits(Bytes("168"));
      ScannedTwo(s, p, Bytes("192"), Bytes("168"));
    } else {
      LiteralDigits(Bytes("254"));
      ScannedTwo(s, p, Bytes("169"), Bytes("254"));
    }
  }

  lemma RangeDigits(octet: Str)
    requires IsSixteenToThirtyOne(octet)
    ensures TwoOctetPrefix(Bytes("172"), octet) && forall i :: 0 <= i < |octet| ==> IsDigit(octet[i])
  {
    SixteenToThirtyOne(octet);
    hide Bytes, MatchesOctetRange;
  }

  /** What the scanner finds is an aligned match, unless the octet after 172 is not two digits long. */
  lemma ScannedIsAligned(s: Str, p: nat)
    requires p <= |s| && PrivateAddressAt(s, p)
    requires OctetAt(s, p, Bytes("172")) ==> RunEnd(s, p + 4) == p + 6
    ensures AlignedMatchAt(s, p)
  {
    hide Bytes, TwoOctetsAt, PairAt, PairEnds, MatchesOctetRange, RunEnd, PrefixAt, OneOctetPrefix, TwoOctetPrefix, OctetAt;
    var e := RunEnd(s, p);
    var first := s[p..e];
    RunIsOctet(s, p, first);
    if OneOctetPrefix(first) && TwoOctetsAt(s, e + 1) {
      TwoOctetsArePair(s, e + 1);
      OneIsPrefix(s, p, first);
      assert PrefixAt(s, p, e + 1);
    } else {
      var f := RunEnd(s, e + 1);
      TwoOctetsArePair(s, f + 1);
      RunIsOctet(s, e + 1, s[e + 1..f]);
      TwoArePrefix(s, p, first, s[e + 1..f]);
      assert PrefixAt(s, p, f + 1);
    }
  }

  lemma OneIsPrefix(s: Str, p: nat, octet: Str)
    requires OneOctetPrefix(octet) && OctetAt(s, p, octet)
    ensures PrefixAt(s, p, p + |octet| + 1)
  {
    Lengths();
    hide Bytes, OctetAt;
  }

  lemma TwoArePrefix(s: Str, p: nat, first: Str, second: Str)
    requires TwoOctetPrefix(first, second) && OctetAt(s, p, first) && OctetAt(s, p + |first| + 1, second)
    requires first == Bytes("172") ==> |second| == 2
    ensures PrefixAt(s, p, p + |first| + 1 + |second| + 1)
  {
    Lengths();
    hide Bytes;
    if first == Bytes("172") {
      assert forall c :: c in second ==> IsDigit(c);
      assert second[0] in second && second[1] in second;
      SixteenToThirtyOne(second);
      hide MatchesOctetRange, IsSixteenToThirtyOne;
      assert second == s[p + 4..p + 6];
    }
  }

  /** The padded case is what the scanner finds after 172 when the second octet is not two digits. */
  lemma PaddedIsScanned(s: Str, p: nat)
    requires p <= |s| && PaddedAddressAt(s, p)
    ensures PrivateAddressAt(s, p) && RunEnd(s, p + 4) != p + 6
  {
    Lengths();
    var octet := s[p + 4..p + 7];
    assert octet[1..] == s[p + 5..p + 7];
    assert OctetAt(s, p + 4, octet);
    hide Bytes, PairAt, PairEnds, OctetAt, PrivateAddressAt;
    RangeDigits(octet[1..]);
    assert forall i :: 0 <= i < 3 ==> IsDigit(octet[i]) by {
      assert octet[1] == octet[1..][0] && octet[2] == octet[1..][1];
    }
    PaddedRange(octet);
    ScannedTwo(s, p, Bytes("172"), octet);
    OctetIsRun(s, p + 4, octet);
  }

  lemma ScannedIsPadded(s: Str, p: nat)
    requires p <= |s| && PrivateAddressAt(s, p)
    requires OctetAt(s, p, Bytes("172")) && RunEnd(s, p + 4) != p + 6
    ensures PaddedAddressAt(s, p)
  {
    Literals();
    LiteralDigits(Bytes("172"));
    OctetIsRun(s, p, Bytes("172"));
    assert s[p..p + 3] == Bytes("172");
    hide TwoOctetsAt, PairAt, PairEnds, MatchesOctetRange, IsSixteenToThirtyOne, Bytes, OctetAt;
    var f := RunEnd(s, p + 4);
    var octet := s[p + 4..f];
    assert forall i :: 0 <= i < |octet| ==> octet[i] == s[p + 4 + i];
    hide RunEnd;
    assert TwoOctetPrefix(s[p..p + 3], octet) && TwoOctetsAt(s, f + 1);
    PaddedRange(octet);
    assert octet[1..] == s[p + 5..p + 7];
    TwoOctetsArePair(s, f + 1);
  }

  /** Position by position: the aligned matches of the expression are exactly what the scanner finds,
      but for second octets after 172 that are not two digits long; and with the padded ones they are
      all that it finds. */
  lemma AgreeAt(s: Str, p: nat)
    requires p <= |s|
    ensures AlignedMatchAt(s, p) <==>
              PrivateAddressAt(s, p) && (OctetAt(s, p, Bytes("172")) ==> RunEnd(s, p + 4) == p + 6)
    ensures PrivateAddressAt(s, p) <==> AlignedMatchAt(s, p) || PaddedAddressAt(s, p)
  {
    hide PrivateAddressAt, RunEnd, Bytes, AlignedMatchAt;
    Lengths();
    if AlignedMatchAt(s, p) {
      AlignedIsScanned(s, p);
    }
    if PaddedAddressAt(s, p) {
      PaddedIsScanned(s, p);
    }
    if PrivateAddressAt(s, p) {
      if OctetAt(s, p, Bytes("172")) && RunEnd(s, p + 4) != p + 6 {
        ScannedIsPadded(s, p);
      } else {
        ScannedIsAligned(s, p);
      }
    }
  }

  predicate HasAlignedMatch(s: Str) {
    exists p :: 0 <= p <= |s| && AlignedMatchAt(s, p)
  }

  predicate HasPaddedAddress(s: Str) {
    exists p :: 0 <= p <= |s| && PaddedAddressAt(s, p)
  }

  lemma AlignedIsMatched(s: Str, p: nat)
    requires p <= |s| && AlignedMatchAt(s, p)
    ensures MatchesAt(s, p)
  {
    hide PrefixAt, PairAt, PairEnds;
  }

  /** String by string: the scanner answers true exactly for an aligned match or a padded address; so it
      gives the expression's answer exactly when a match comes with one of these, and no match with no
      padded address. */
  lemma ScannerAndPatternAgree(s: Str)
    ensures HasPrivateAddress(s) <==> HasAlignedMatch(s) || HasPaddedAddress(s)
    ensures (HasPrivateAddress(s) <==> Matches(s)) <==>
              if Matches(s) then HasAlignedMatch(s) || HasPaddedAddress(s) else !HasPaddedAddress(s)
  {
    forall p | 0 <= p <= |s|
      ensures PrivateAddressAt(s, p) <==> AlignedMatchAt(s, p) || PaddedAddressAt(s, p)
      ensures AlignedMatchAt(s, p) ==> MatchesAt(s, p)
    {
      AgreeAt(s, p);
      hide PrivateAddressAt, PaddedAddressAt, MatchesAt, AlignedMatchAt;
      if AlignedMatchAt(s, p) {
        AlignedIsMatched(s, p);
      }
    }
    hide PrivateAddressAt, AlignedMatchAt, PaddedAddressAt, MatchesAt;
  }

  // ----- Where they do not -------------------------------------------------------------------

  lemma NoPrefix(first: Str, second: Str)
    requires |first| != 2 && |first| != 3
    ensures !OneOctetPrefix(first) && !TwoOctetPrefix(first, second)
  {
    Lengths();
  }

  /** Neither contains the other: a prefix inside a longer number is matched but not scanned. */
  lemma MatchedButNotScanned()
    ensures var s := Bytes("1127.0.0"); MatchesAt(s, 1) && !HasPrivateAddress(s)
  {
    var s := Bytes("1127.0.0");
    assert s == [49, 49, 50, 55, 46, 48, 46, 48];
    Literals();
    hide Bytes, TwoOctetsAt;
    assert PairOf(s, 5, 1, 1);
    assert s[1..4] == Bytes("127");
    assert PrefixAt(s, 1, 5);
    RunEndIs(s, 0, 4);
    RunEndIs(s, 5, 1);
    RunEndIs(s, 7, 1);
    forall p | 0 <= p <= |s| ensures !PrivateAddressAt(s, p) {
      if p == 0 || p == 5 {
        NoPrefix(s[p..RunEnd(s, p)], s[RunEnd(s, p) + 1..RunEnd(s, RunEnd(s, p) + 1)]);
      }
    }
  }

  lemma Literals()
    ensures Bytes("127") == [49, 50, 55] && Bytes("10") == [49, 48] && Bytes("192") == [49, 57, 50]
    ensures Bytes("172") == [49, 55, 50] && Bytes("169") == [49, 54, 57]
  {
  }

  lemma OctetBytes(s: Str, p: nat, octet: Str)
    requires OctetAt(s, p, octet)
    ensures forall i :: 0 <= i < |octet| ==> s[p + i] == octet[i]
  {
    forall i | 0 <= i < |octet| ensures s[p + i] == octet[i] {
      assert s[p..p + |octet|][i] == s[p + i];
    }
  }

  lemma NotAt(s: Str, p: nat, octet: Str, i: nat)
    requires i < |octet| && (p + i < |s| ==> s[p + i] != octet[i])
    ensures !OctetAt(s, p, octet)
  {
    if OctetAt(s, p, octet) {
      OctetBytes(s, p, octet);
    }
  }

  lemma PaddedIsNotMatched(s: Str, p: nat)
    requires s == [49, 55, 50, 46, 48, 49, 54, 46, 49, 46, 49] && p <= |s|
    ensures !MatchesAt(s, p)
  {
    Literals();
    hide Bytes, PairAt, OctetAt;
    var i := if p < |s| && s[p] == 49 then 1 else 0;
    NotAt(s, p, Bytes("127"), i);
    NotAt(s, p, Bytes("10"), i);
    NotAt(s, p, Bytes("192"), i);
    NotAt(s, p, Bytes("169"), if p == 5 then 2 else i);
    if p != 0 {
      NotAt(s, p, Bytes("172"), i);
    }
  }

  lemma SampleIsPadded(s: Str)
    requires s == [49, 55, 50, 46, 48, 49, 54, 46, 49, 46, 49]
    ensures PaddedAddressAt(s, 0)
  {
    Literals();
    hide Bytes;
    assert s[0..3] == Bytes("172") && s[5..7] == [49, 54];
    assert PairOf(s, 8, 1, 1);
    RunEndIs(s, 8, 1);
    RunEndIs(s, 10, 1);
  }

  /** A zero-padded second octet is scanned but not matched. */
  lemma ScannedButNotMatched()
    ensures var s := Bytes("172.016.1.1"); PrivateAddressAt(s, 0) && !Matches(s)
  {
    var s := Bytes("172.016.1.1");
    assert s == [49, 55, 50, 46, 48, 49, 54, 46, 49, 46, 49];
    SampleIsPadded(s);
    PaddedIsScanned(s, 0);
    hide Bytes, PrivateAddressAt, MatchesAt;
    forall p | 0 <= p <= |s| ensures !MatchesAt(s, p) {
      PaddedIsNotMatched(s, p);
    }
  }
}
