/** Repo-relative refs: `is_safe_ref` of `xtask/src/readiness.rs` and its copy `is_safe_path`
    of `xtask/src/evidence_bind.rs`, with their private-address scanner. */
module Refs {
  import opened Prelude

  const DOT: byte := '.' as int
  const SLASH: byte := '/' as int

  predicate IsDigit(c: byte) {
    '0' as int <= c <= '9' as int
  }

  predicate IsAlphanumeric(c: byte) {
    IsDigit(c) || 'a' as int <= c <= 'z' as int || 'A' as int <= c <= 'Z' as int
  }

  predicate IsRefByte(c: byte) {
    IsAlphanumeric(c) || c == DOT || c == '_' as int || c == SLASH || c == '-' as int
  }

  function ToLowerByte(c: byte): byte {
    if 'A' as int <= c <= 'Z' as int then c + 32 else c
  }

  function ToLower(s: Str): (r: Str)
    ensures |r| == |s|
    ensures forall i :: 0 <= i < |s| ==> r[i] == ToLowerByte(s[i])
  {
    seq(|s|, i requires 0 <= i < |s| => ToLowerByte(s[i]))
  }

  predicate StartsWith(s: Str, prefix: Str) {
    |prefix| <= |s| && s[..|prefix|] == prefix
  }

  predicate Contains(s: Str, needle: Str) {
    exists i :: 0 <= i <= |s| && StartsWith(s[i..], needle)
  }

  // ----- Splitting ------------------------------------------------------------

  /** A piece `s[lo..hi]` of the string being split. */
  datatype Span = Span(lo: nat, hi: nat)

  /** The first separator at or after `lo`, or `hi`. */
  function NextSeparator(s: Str, lo: nat, hi: nat, isSeparator: byte -> bool): (k: nat)
    requires lo <= hi <= |s|
    ensures lo <= k <= hi
    ensures k < hi ==> isSeparator(s[k])
    ensures forall i :: lo <= i < k ==> !isSeparator(s[i])
    decreases hi - lo
  {
    if lo == hi || isSeparator(s[lo]) then lo else NextSeparator(s, lo + 1, hi, isSeparator)
  }

  /** Rust's `split` over `s[lo..hi]`: the pieces between consecutive separators. */
  function Split(s: Str, lo: nat, hi: nat, isSeparator: byte -> bool): (pieces: seq<Span>)
    requires lo <= hi <= |s|
    decreases hi - lo
  {
    var k := NextSeparator(s, lo, hi, isSeparator);
    if k == hi then [Span(lo, hi)] else [Span(lo, k)] + Split(s, k + 1, hi, isSeparator)
  }

  ghost predicate IsSplit(s: Str, lo: nat, hi: nat, isSeparator: byte -> bool, pieces: seq<Span>)
    requires lo <= hi <= |s|
  {
    && pieces != []
    && pieces[0].lo == lo
    && pieces[|pieces| - 1].hi == hi
    && (forall k :: 0 <= k < |pieces| ==> lo <= pieces[k].lo <= pieces[k].hi <= hi)
    && (forall k, i :: 0 <= k < |pieces| && pieces[k].lo <= i < pieces[k].hi ==> !isSeparator(s[i]))
    && (forall k :: 0 <= k < |pieces| && pieces[k].hi < hi ==> isSeparator(s[pieces[k].hi]))
    && (forall k :: 0 <= k < |pieces| - 1 ==> pieces[k].hi < hi)
    && (forall k, next :: 0 <= k < next < |pieces| && next == k + 1 ==> pieces[next].lo == pieces[k].hi + 1)
  }

  lemma {:induction false} SplitIsSplit(s: Str, lo: nat, hi: nat, isSeparator: byte -> bool)
    requires lo <= hi <= |s|
    ensures IsSplit(s, lo, hi, isSeparator, Split(s, lo, hi, isSeparator))
    decreases hi - lo
  {
    hide IsSplit;
    var k := NextSeparator(s, lo, hi, isSeparator);
    if k == hi {
      OnePiece(s, lo, hi, isSeparator);
    } else {
      SplitIsSplit(s, k + 1, hi, isSeparator);
      PrependPiece(s, lo, k, hi, isSeparator, Split(s, k + 1, hi, isSeparator));
    }
  }

  lemma OnePiece(s: Str, lo: nat, hi: nat, isSeparator: byte -> bool)
    requires lo <= hi <= |s|
    requires forall i :: lo <= i < hi ==> !isSeparator(s[i])
    ensures IsSplit(s, lo, hi, isSeparator, [Span(lo, hi)])
  {
  }

  lemma PrependPiece(s: Str, lo: nat, k: nat, hi: nat, isSeparator: byte -> bool, rest: seq<Span>)
    requires lo <= k < hi <= |s|
    requires isSeparator(s[k]) && forall i :: lo <= i < k ==> !isSeparator(s[i])
    requires IsSplit(s, k + 1, hi, isSeparator, rest)
    ensures IsSplit(s, lo, hi, isSeparator, [Span(lo, k)] + rest)
  {
    var pieces := [Span(lo, k)] + rest;
    assert pieces[|pieces| - 1] == rest[|rest| - 1];
    forall j | 0 <= j < |pieces| ensures lo <= pieces[j].lo <= pieces[j].hi <= hi {
      if j > 0 {
        assert pieces[j] == rest[j - 1];
      }
    }
    forall j | 0 <= j < |pieces| && pieces[j].hi < hi ensures isSeparator(s[pieces[j].hi]) {
      if j > 0 {
        assert pieces[j] == rest[j - 1];
      }
    }
    forall j, i | 0 <= j < |pieces| && pieces[j].lo <= i < pieces[j].hi ensures !isSeparator(s[i]) {
      if j > 0 {
        assert pieces[j] == rest[j - 1];
      }
    }
    forall j | 0 <= j < |pieces| - 1 ensures pieces[j].hi < hi {
      if j > 0 {
        assert pieces[j] == rest[j - 1];
      }
    }
    forall j, next | 0 <= j < next < |pieces| && next == j + 1
      ensures pieces[next].lo == pieces[j].hi + 1
    {
      if j > 0 {
        assert pieces[j] == rest[j - 1] && pieces[next] == rest[next - 1];
      }
    }
  }

  /** Every position of the string lies in a piece or at its end. */
  lemma {:induction false} Locate(s: Str, lo: nat, hi: nat, isSeparator: byte -> bool, p: nat) returns (k: nat)
    requires lo <= p <= hi <= |s|
    ensures var pieces := Split(s, lo, hi, isSeparator);
            k < |pieces| && pieces[k].lo <= p <= pieces[k].hi
    decreases hi - lo
  {
    var next := NextSeparator(s, lo, hi, isSeparator);
    if p <= next {
      k := 0;
    } else {
      var rest := Locate(s, next + 1, hi, isSeparator, p);
      k := rest + 1;
      assert Split(s, lo, hi, isSeparator)[k] == Split(s, next + 1, hi, isSeparator)[rest];
    }
  }

  lemma PiecesAreDelimited(s: Str, isSeparator: byte -> bool, k: nat)
    requires k < |Split(s, 0, |s|, isSeparator)|
    ensures var piece := Split(s, 0, |s|, isSeparator)[k];
            && piece.lo <= piece.hi <= |s|
            && (piece.lo > 0 ==> isSeparator(s[piece.lo - 1]))
            && (piece.hi < |s| ==> isSeparator(s[piece.hi]))
            && forall i :: piece.lo <= i < piece.hi ==> !isSeparator(s[i])
  {
    SplitIsSplit(s, 0, |s|, isSeparator);
    var pieces := Split(s, 0, |s|, isSeparator);
    if k > 0 {
      var before := k - 1;
      assert pieces[before].hi < |s| && pieces[k].lo == pieces[before].hi + 1;
    }
  }

  /** A delimited stretch without separators, empty or not, is one of the pieces. */
  lemma DelimitedIsPiece(s: Str, isSeparator: byte -> bool, lo: nat, hi: nat) returns (k: nat)
    requires lo <= hi <= |s|
    requires lo > 0 ==> isSeparator(s[lo - 1])
    requires hi < |s| ==> isSeparator(s[hi])
    requires forall i :: lo <= i < hi ==> !isSeparator(s[i])
    ensures k < |Split(s, 0, |s|, isSeparator)| && Split(s, 0, |s|, isSeparator)[k] == Span(lo, hi)
  {
    k := Locate(s, 0, |s|, isSeparator, lo);
    PiecesAreDelimited(s, isSeparator, k);
  }

  // ----- Private and loopback IPv4 shapes ---------------------------------------

  /** One past the run of digits that starts at `p`. */
  function RunEnd(s: Str, p: nat): (e: nat)
    requires p <= |s|
    ensures p <= e <= |s|
    ensures forall i :: p <= i < e ==> IsDigit(s[i])
    ensures e < |s| ==> !IsDigit(s[e])
    decreases |s| - p
  {
    if p == |s| || !IsDigit(s[p]) then p else RunEnd(s, p + 1)
  }

  /** `is_schema_octet`: one to three digits, whatever their value. */
  predicate IsSchemaOctet(field: Str) {
    1 <= |field| <= 3 && forall c :: c in field ==> IsDigit(c)
  }

  function DecimalValue(field: Str): int {
    if field == [] then 0 else 10 * DecimalValue(field[..|field| - 1]) + (field[|field| - 1] as int - '0' as int)
  }

  /** `matches_octet_range`. */
  predicate MatchesOctetRange(field: Str, low: int, high: int) {
    IsSchemaOctet(field) && low <= DecimalValue(field) <= high
  }

  predicate OneOctetPrefix(o1: Str) {
    o1 == Bytes("127") || o1 == Bytes("10")
  }

  predicate TwoOctetPrefix(o1: Str, o2: Str) {
    || (o1 == Bytes("192") && o2 == Bytes("168"))
    || (o1 == Bytes("172") && MatchesOctetRange(o2, 16, 31))
    || (o1 == Bytes("169") && o2 == Bytes("254"))
  }

  /** Two dot-separated runs of one to three digits start at `p`, the second not followed
      by a further digit. */
  predicate TwoOctetsAt(s: Str, p: nat)
    requires p <= |s|
  {
    var e := RunEnd(s, p);
    && e < |s| && s[e] == DOT
    && IsSchemaOctet(s[p..e])
    && IsSchemaOctet(s[e + 1..RunEnd(s, e + 1)])
  }

  /** The octet-aligned shape: at `p`, not preceded by a digit, stands a private or loopback
      prefix whose octets are whole digit runs, then the remaining two octets. */
  predicate PrivateAddressAt(s: Str, p: nat)
    requires p <= |s|
  {
    && (p == 0 || !IsDigit(s[p - 1]))
    && var e := RunEnd(s, p);
    && e < |s| && s[e] == DOT
    && (|| (OneOctetPrefix(s[p..e]) && TwoOctetsAt(s, e + 1))
        || (var f := RunEnd(s, e + 1);
            && f < |s| && s[f] == DOT
            && TwoOctetPrefix(s[p..e], s[e + 1..f])
            && TwoOctetsAt(s, f + 1)))
  }

  predicate HasPrivateAddress(s: Str) {
    exists p :: 0 <= p <= |s| && PrivateAddressAt(s, p)
  }

  const TokenSeparator: byte -> bool := (c: byte) => !(IsDigit(c) || c == DOT)
  const IsDot: byte -> bool := (c: byte) => c == DOT

  function Tokens(s: Str): (tokens: seq<Span>)
    ensures forall t :: 0 <= t < |tokens| ==> tokens[t].lo <= tokens[t].hi <= |s|
  {
    SplitIsSplit(s, 0, |s|, TokenSeparator);
    Split(s, 0, |s|, TokenSeparator)
  }

  function Octets(s: Str, token: Span): (octets: seq<Span>)
    requires token.lo <= token.hi <= |s|
    ensures forall k :: 0 <= k < |octets| ==> octets[k].lo <= octets[k].hi <= |s|
  {
    SplitIsSplit(s, token.lo, token.hi, IsDot);
    Split(s, token.lo, token.hi, IsDot)
  }

  /** `token` is a maximal run of digits and dots. */
  ghost predicate IsToken(s: Str, token: Span) {
    && token.lo <= token.hi <= |s|
    && (forall i :: token.lo <= i < token.hi ==> !TokenSeparator(s[i]))
    && (token.lo == 0 || TokenSeparator(s[token.lo - 1]))
    && (token.hi == |s| || TokenSeparator(s[token.hi]))
  }

  function Field(s: Str, span: Span): Str
    requires span.lo <= span.hi <= |s|
  {
    s[span.lo..span.hi]
  }

  /** The test of the first inner loop. */
  predicate OneOctetMatch(s: Str, octets: seq<Span>, k: nat)
    requires k + 2 < |octets|
    requires forall j :: 0 <= j < |octets| ==> octets[j].lo <= octets[j].hi <= |s|
  {
    && OneOctetPrefix(Field(s, octets[k]))
    && IsSchemaOctet(Field(s, octets[k + 1])) && IsSchemaOctet(Field(s, octets[k + 2]))
  }

  /** The test of the second inner loop. */
  predicate TwoOctetMatch(s: Str, octets: seq<Span>, k: nat)
    requires k + 3 < |octets|
    requires forall j :: 0 <= j < |octets| ==> octets[j].lo <= octets[j].hi <= |s|
  {
    && TwoOctetPrefix(Field(s, octets[k]), Field(s, octets[k + 1]))
    && IsSchemaOctet(Field(s, octets[k + 2])) && IsSchemaOctet(Field(s, octets[k + 3]))
  }

  /** An octet of a token is a whole digit run; a dot ends it exactly when another follows. */
  lemma OctetIsRun(s: Str, token: Span, k: nat)
    requires IsToken(s, token)
    requires k < |Octets(s, token)|
    ensures var octets := Octets(s, token);
            && RunEnd(s, octets[k].lo) == octets[k].hi
            && (octets[k].lo == 0 || !IsDigit(s[octets[k].lo - 1]))
            && (octets[k].hi < |s| && s[octets[k].hi] == DOT <==> k + 1 < |octets|)
            && (k + 1 < |octets| ==> octets[k + 1].lo == octets[k].hi + 1)
  {
    var octets := Octets(s, token);
    SplitIsSplit(s, token.lo, token.hi, IsDot);
    var o := octets[k];
    forall i | o.lo <= i < o.hi ensures IsDigit(s[i]) {
      assert !IsDot(s[i]) && !TokenSeparator(s[i]);
    }
    if k > 0 {
      assert octets[k - 1].hi < token.hi && octets[k].lo == octets[k - 1].hi + 1;
      assert IsDot(s[octets[k - 1].hi]);
    }
    if k + 1 < |octets| {
      assert o.hi < token.hi && IsDot(s[o.hi]);
    } else {
      assert o.hi == token.hi;
    }
    RunEndUnique(s, o.lo, o.hi);
  }

  lemma {:induction false} RunEndUnique(s: Str, p: nat, e: nat)
    requires p <= e <= |s|
    requires forall i :: p <= i < e ==> IsDigit(s[i])
    requires e < |s| ==> !IsDigit(s[e])
    ensures RunEnd(s, p) == e
    decreases e - p
  {
    if p < e {
      RunEndUnique(s, p + 1, e);
    }
  }

  lemma TwoOctetsArePositional(s: Str, token: Span, k: nat)
    requires IsToken(s, token)
    requires k < |Octets(s, token)|
    ensures var octets := Octets(s, token);
            TwoOctetsAt(s, octets[k].lo) <==>
              && k + 1 < |octets|
              && IsSchemaOctet(Field(s, octets[k])) && IsSchemaOctet(Field(s, octets[k + 1]))
  {
    OctetIsRun(s, token, k);
    if k + 1 < |Octets(s, token)| {
      OctetIsRun(s, token, k + 1);
    }
  }

  /** The two inner loops together test the positional shape at the start of each octet. */
  lemma OctetMatchIsPositional(s: Str, token: Span, k: nat)
    requires IsToken(s, token)
    requires k < |Octets(s, token)|
    ensures var octets := Octets(s, token);
            PrivateAddressAt(s, octets[k].lo) <==>
              || (k + 2 < |octets| && OneOctetMatch(s, octets, k))
              || (k + 3 < |octets| && TwoOctetMatch(s, octets, k))
  {
    hide TwoOctetsAt, OneOctetPrefix, TwoOctetPrefix, IsSchemaOctet;
    var octets := Octets(s, token);
    OctetIsRun(s, token, k);
    if k + 1 < |octets| {
      OctetIsRun(s, token, k + 1);
      TwoOctetsArePositional(s, token, k + 1);
      if k + 2 < |octets| {
        TwoOctetsArePositional(s, token, k + 2);
      }
    }
  }

  /** Any private address begins an octet of some token. */
  lemma AddressStartsOctet(s: Str, p: nat) returns (t: nat, k: nat)
    requires p <= |s| && PrivateAddressAt(s, p)
    ensures t < |Tokens(s)|
    ensures k < |Octets(s, Tokens(s)[t])| && Octets(s, Tokens(s)[t])[k].lo == p
  {
    t := Locate(s, 0, |s|, TokenSeparator, p);
    var token := Tokens(s)[t];
    k := Locate(s, token.lo, token.hi, IsDot, p);
    var o := Octets(s, token)[k];
    SplitIsSplit(s, 0, |s|, TokenSeparator);
    SplitIsSplit(s, token.lo, token.hi, IsDot);
    forall i | o.lo <= i < o.hi ensures IsDigit(s[i]) {
      assert !IsDot(s[i]) && !TokenSeparator(s[i]);
    }
  }

  lemma TokensAreMaximal(s: Str, t: nat)
    requires t < |Tokens(s)|
    ensures IsToken(s, Tokens(s)[t])
  {
    var tokens := Tokens(s);
    SplitIsSplit(s, 0, |s|, TokenSeparator);
    if t > 0 {
      assert tokens[t - 1].hi < |s| && tokens[t].lo == tokens[t - 1].hi + 1;
      assert TokenSeparator(s[tokens[t - 1].hi]);
    }
  }

  ghost predicate TokenHasAddress(s: Str, token: Span)
    requires token.lo <= token.hi <= |s|
  {
    exists k :: 0 <= k < |Octets(s, token)| && PrivateAddressAt(s, Octets(s, token)[k].lo)
  }

  lemma AddressIsInToken(s: Str)
    ensures HasPrivateAddress(s) <==> exists t :: 0 <= t < |Tokens(s)| && TokenHasAddress(s, Tokens(s)[t])
  {
    if HasPrivateAddress(s) {
      var p :| 0 <= p <= |s| && PrivateAddressAt(s, p);
      var t, k := AddressStartsOctet(s, p);
      assert TokenHasAddress(s, Tokens(s)[t]);
    }
  }

  lemma TokenMatch(s: Str, token: Span)
    requires IsToken(s, token)
    ensures var octets := Octets(s, token);
            TokenHasAddress(s, token) <==>
              || (exists k :: 0 <= k < |octets| - 2 && OneOctetMatch(s, octets, k))
              || (exists k :: 0 <= k < |octets| - 3 && TwoOctetMatch(s, octets, k))
  {
    forall k | 0 <= k < |Octets(s, token)| {
      OctetMatchIsPositional(s, token, k);
    }
  }

  /** The two inner loops over one token. */
  method TokenContainsPrivateIpv4(s: Str, token: Span) returns (found: bool)
    requires IsToken(s, token)
    ensures found <==> TokenHasAddress(s, token)
  {
    hide TokenHasAddress, OneOctetMatch, TwoOctetMatch;
    var octets := Octets(s, token);
    TokenMatch(s, token);
    for start := 0 to if |octets| < 2 then 0 else |octets| - 2
      invariant forall k :: 0 <= k < start ==> !OneOctetMatch(s, octets, k)
    {
      if OneOctetMatch(s, octets, start) {
        return true;
      }
    }
    for start := 0 to if |octets| < 3 then 0 else |octets| - 3
      invariant forall k :: 0 <= k < start ==> !TwoOctetMatch(s, octets, k)
    {
      if TwoOctetMatch(s, octets, start) {
        return true;
      }
    }
    return false;
  }

  /** `contains_private_or_loopback_ipv4`: splitting into tokens and sliding over octets
      finds exactly the octet-aligned shapes. */
  method ContainsPrivateOrLoopbackIpv4(lower: Str) returns (found: bool)
    ensures found <==> HasPrivateAddress(lower)
  {
    hide TokenHasAddress, HasPrivateAddress;
    var tokens := Tokens(lower);
    AddressIsInToken(lower);
    for t := 0 to |tokens|
      invariant forall j :: 0 <= j < t ==> !TokenHasAddress(lower, tokens[j])
    {
      TokensAreMaximal(lower, t);
      var inToken := TokenContainsPrivateIpv4(lower, tokens[t]);
      if inToken {
        return true;
      }
    }
    return false;
  }

  // ----- Safe refs ----------------------------------------------------------------

  const SECRET_SUBSTRINGS: seq<string> := ["token", "secret", "credentials", "password"]
  const HOST_LOCAL_SUBSTRINGS: seq<string> := ["/users/", "/home/", "/private/", "/var/folders/"]
  const LOCAL_IPV6_PREFIXES: seq<string> := ["::1", "fc00:", "fd00:", "fe80:"]

  /** `matches_schema_denylist`. */
  predicate MatchesDenylist(value: Str) {
    var lower := ToLower(value);
    || (exists i :: 0 <= i < |SECRET_SUBSTRINGS| && Contains(lower, Bytes(SECRET_SUBSTRINGS[i])))
    || (exists i :: 0 <= i < |HOST_LOCAL_SUBSTRINGS| && Contains(lower, Bytes(HOST_LOCAL_SUBSTRINGS[i])))
    || (exists i :: 0 <= i < |LOCAL_IPV6_PREFIXES| && StartsWith(lower, Bytes(LOCAL_IPV6_PREFIXES[i])))
    || HasPrivateAddress(lower)
  }

  const IsSlash: byte -> bool := (c: byte) => c == SLASH

  function Components(value: Str): seq<Str> {
    SplitIsSplit(value, 0, |value|, IsSlash);
    var pieces := Split(value, 0, |value|, IsSlash);
    seq(|pieces|, k requires 0 <= k < |pieces| => Field(value, pieces[k]))
  }

  /** `is_safe_path`, and `is_safe_ref` at its bound of 256 bytes. */
  predicate IsSafePath(value: Str, maxBytes: nat) {
    && 0 < |value| <= maxBytes
    && (forall c :: c in value ==> IsRefByte(c))
    && value[0] != SLASH
    && !Contains(value, Bytes(".."))
    && (forall component :: component in Components(value) ==> component != [] && component != Bytes("."))
    && !MatchesDenylist(value)
  }

  /** `needle` is written at `i`. */
  ghost predicate IsWrittenAt(s: Str, needle: string, i: int) {
    0 <= i && i + |needle| <= |s| && s[i..i + |needle|] == Bytes(needle)
  }

  ghost predicate IsWritten(s: Str, needle: string) {
    exists i :: IsWrittenAt(s, needle, i)
  }

  lemma ContainsIsWritten(s: Str, needle: string)
    ensures Contains(s, Bytes(needle)) <==> IsWritten(s, needle)
    ensures StartsWith(s, Bytes(needle)) <==> IsWrittenAt(s, needle, 0)
  {
    if i :| 0 <= i <= |s| && StartsWith(s[i..], Bytes(needle)) {
      assert s[i..][..|needle|] == s[i..i + |needle|];
      assert IsWrittenAt(s, needle, i);
    }
    if i :| IsWrittenAt(s, needle, i) {
      assert s[i..][..|needle|] == s[i..i + |needle|];
    }
  }

  /** What the deny list catches, in any case of letters: a secret's name or a private directory
      anywhere, a local IPv6 prefix at the start, a private IPv4 address anywhere. */
  lemma DenylistIsPositional(value: Str)
    ensures var lower := ToLower(value);
            MatchesDenylist(value) <==>
              || IsWritten(lower, "token") || IsWritten(lower, "secret")
              || IsWritten(lower, "credentials") || IsWritten(lower, "password")
              || IsWritten(lower, "/users/") || IsWritten(lower, "/home/")
              || IsWritten(lower, "/private/") || IsWritten(lower, "/var/folders/")
              || IsWrittenAt(lower, "::1", 0) || IsWrittenAt(lower, "fc00:", 0)
              || IsWrittenAt(lower, "fd00:", 0) || IsWrittenAt(lower, "fe80:", 0)
              || exists p :: 0 <= p <= |lower| && PrivateAddressAt(lower, p)
  {
    hide Bytes, IsWritten, IsWrittenAt, Contains, StartsWith, PrivateAddressAt;
    var lower := ToLower(value);
    forall needle: string {
      ContainsIsWritten(lower, needle);
    }
    assert (exists i :: 0 <= i < 4 && Contains(lower, Bytes(SECRET_SUBSTRINGS[i]))) <==>
      || Contains(lower, Bytes(SECRET_SUBSTRINGS[0])) || Contains(lower, Bytes(SECRET_SUBSTRINGS[1]))
      || Contains(lower, Bytes(SECRET_SUBSTRINGS[2])) || Contains(lower, Bytes(SECRET_SUBSTRINGS[3]));
    assert (exists i :: 0 <= i < 4 && Contains(lower, Bytes(HOST_LOCAL_SUBSTRINGS[i]))) <==>
      || Contains(lower, Bytes(HOST_LOCAL_SUBSTRINGS[0])) || Contains(lower, Bytes(HOST_LOCAL_SUBSTRINGS[1]))
      || Contains(lower, Bytes(HOST_LOCAL_SUBSTRINGS[2])) || Contains(lower, Bytes(HOST_LOCAL_SUBSTRINGS[3]));
    assert (exists i :: 0 <= i < 4 && StartsWith(lower, Bytes(LOCAL_IPV6_PREFIXES[i]))) <==>
      || StartsWith(lower, Bytes(LOCAL_IPV6_PREFIXES[0])) || StartsWith(lower, Bytes(LOCAL_IPV6_PREFIXES[1]))
      || StartsWith(lower, Bytes(LOCAL_IPV6_PREFIXES[2])) || StartsWith(lower, Bytes(LOCAL_IPV6_PREFIXES[3]));
  }

  /** Between two slashes, or an end, stands nothing or a single dot. */
  ghost predicate IsIdleComponent(value: Str, lo: int, hi: int) {
    && 0 <= lo <= hi <= |value|
    && (lo > 0 ==> value[lo - 1] == SLASH)
    && (hi < |value| ==> value[hi] == SLASH)
    && (lo == hi || (hi == lo + 1 && value[lo] == DOT))
  }

  lemma IdleComponents(value: Str)
    ensures (exists component :: component in Components(value) && (component == [] || component == Bytes("."))) <==>
              exists lo, hi :: IsIdleComponent(value, lo, hi)
  {
    assert Bytes(".") == [DOT];
    hide Bytes, Components, IsIdleComponent;
    if component :| component in Components(value) && (component == [] || component == [DOT]) {
      var lo, hi := IdleIsPiece(value, component);
    }
    if lo, hi :| IsIdleComponent(value, lo, hi) {
      PieceIsIdle(value, lo, hi);
    }
  }

  lemma IdleIsPiece(value: Str, component: Str) returns (lo: nat, hi: nat)
    requires component in Components(value) && (component == [] || component == [DOT])
    ensures IsIdleComponent(value, lo, hi)
  {
    var pieces := Split(value, 0, |value|, IsSlash);
    var k :| 0 <= k < |pieces| && Components(value)[k] == component;
    lo, hi := pieces[k].lo, pieces[k].hi;
    PiecesAreDelimited(value, IsSlash, k);
    assert component == value[lo..hi];
    hide Split, Components;
    assert lo < hi ==> hi == lo + 1 && value[lo] == component[0];
  }

  lemma PieceIsIdle(value: Str, lo: int, hi: int)
    requires IsIdleComponent(value, lo, hi)
    ensures (lo == hi ==> [] in Components(value)) && (lo < hi ==> [DOT] in Components(value))
  {
    var k := DelimitedIsPiece(value, IsSlash, lo, hi);
    var component := Components(value)[k];
    assert component == value[lo..hi] && component in Components(value);
    assert lo < hi ==> component == [DOT];
    hide Components;
    assert lo == hi ==> component == [];
  }

  /** What a safe path is, position by position: no longer than permitted, of permitted characters,
      relative, without two dots in a row, without an empty or dot component, and with nothing the
      deny list catches. */
  lemma SafePathIsPositional(value: Str, maxBytes: nat)
    ensures IsSafePath(value, maxBytes) <==>
              && 0 < |value| <= maxBytes
              && (forall i :: 0 <= i < |value| ==>
                    || '0' as int <= value[i] <= '9' as int || 'a' as int <= value[i] <= 'z' as int
                    || 'A' as int <= value[i] <= 'Z' as int
                    || value[i] == '.' as int || value[i] == '_' as int || value[i] == '/' as int || value[i] == '-' as int)
              && value[0] != '/' as int
              && !IsWritten(value, "..")
              && (forall lo, hi :: !IsIdleComponent(value, lo, hi))
              && !MatchesDenylist(value)
  {
    ContainsIsWritten(value, "..");
    IdleComponents(value);
    hide MatchesDenylist, Components, Bytes, Contains, IsWritten, IsIdleComponent;
    assert (forall c :: c in value ==> IsRefByte(c)) <==> forall i :: 0 <= i < |value| ==> IsRefByte(value[i]);
    assert (forall component :: component in Components(value) ==> component != [] && component != Bytes("."))
      <==> forall lo, hi :: !IsIdleComponent(value, lo, hi);
  }

  const MAX_REF_BYTES: nat := 256

  predicate IsSafeRef(value: Str) {
    IsSafePath(value, MAX_REF_BYTES)
  }
}
