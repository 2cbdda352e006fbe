/** The tag and attribute inspector of `fuzz/fuzz_targets/render_markdown.rs`. A failed assertion of
    the original is a refusal here. */
module HtmlInspector {
  import opened Prelude
  import Refs

  const QUOTE: byte := '"' as int
  const EQUALS: byte := '=' as int
  const LESS: byte := '<' as int
  const GREATER: byte := '>' as int

  // ----- Attributes ----------------------------------------------------------------------------

  datatype Attribute = Attribute(name: Str, value: Option<Str>)

  predicate IsNameByte(c: byte) {
    Refs.IsAlphanumeric(c) || c == '-' as int
  }

  predicate IsName(name: Str) {
    name != [] && forall c :: c in name ==> IsNameByte(c)
  }

  predicate HasName(attributes: seq<Attribute>, name: Str) {
    exists k :: 0 <= k < |attributes| && attributes[k].name == name
  }

  /** How many bytes of `s` come before the first that `stops`. */
  function Until(s: Str, stops: byte -> bool): (n: nat)
    ensures n <= |s| && (n < |s| ==> stops(s[n]))
    ensures forall k :: 0 <= k < n ==> !stops(s[k])
  {
    if s == [] || stops(s[0]) then 0 else 1 + Until(s[1..], stops)
  }

  const NotSpace: byte -> bool := (c: byte) => !IsAsciiWhitespace(c)
  const EndsName: byte -> bool := (c: byte) => IsAsciiWhitespace(c) || c == EQUALS
  const IsQuote: byte -> bool := (c: byte) => c == QUOTE

  function SkipSpace(s: Str): Str {
    s[Until(s, NotSpace)..]
  }

  /** The first attribute in `s`, and what follows it. */
  datatype Reading = End | Malformed | Got(attribute: Attribute, rest: Str)

  /** A name has been read and `b` follows, without its leading space. */
  function ReadValue(name: Str, b: Str): (r: Reading)
    ensures r.Got? ==> |r.rest| <= |b|
  {
    if b == [] || b[0] != EQUALS then Got(Attribute(name, None), b)
    else if |b| == 1 || b[1] != QUOTE then Malformed
    else
      var v := b[2..];
      var q := Until(v, IsQuote);
      if q == |v| then Malformed else Got(Attribute(name, Some(v[..q])), v[q + 1..])
  }

  function ReadOne(s: Str): (r: Reading)
    ensures r.Got? ==> |r.rest| < |s|
  {
    var a := SkipSpace(s);
    if a == [] then End
    else
      var e := Until(a, EndsName);
      if !IsName(a[..e]) then Malformed else ReadValue(a[..e], SkipSpace(a[e..]))
  }

  /** The attributes that `s` spells after those already read. */
  function Parsed(s: Str, done: seq<Attribute>): Option<seq<Attribute>>
    decreases |s|
  {
    match ReadOne(s)
    case End => Some(done)
    case Malformed => None
    case Got(attribute, rest) =>
      if HasName(done, attribute.name) then None else Parsed(rest, done + [attribute])
  }

  /** The scanning loops of `parse_attributes`. */
  method Scan(input: Str, from: nat, stops: byte -> bool) returns (cursor: nat)
    requires from <= |input|
    ensures cursor == from + Until(input[from..], stops)
  {
    cursor := from;
    while cursor < |input| && !stops(input[cursor])
      invariant from <= cursor <= |input|
      invariant from + Until(input[from..], stops) == cursor + Until(input[cursor..], stops)
    {
      assert input[cursor..][1..] == input[cursor + 1..];
      cursor := cursor + 1;
    }
  }

  /** The value part of one turn of `parse_attributes`. */
  method ScanValue(input: Str, from: nat, name: Str) returns (attribute: Option<Attribute>, cursor: nat)
    requires from <= |input|
    ensures var reading := ReadValue(name, input[from..]);
            if attribute.None? then reading == Malformed
            else from <= cursor <= |input| && reading == Got(attribute.value, input[cursor..])
  {
    hide Until;
    cursor := from;
    if from == |input| || input[from] != EQUALS {
      return Some(Attribute(name, None)), cursor;
    }
    if from + 1 == |input| || input[from + 1] != QUOTE {
      return None, cursor;
    }
    assert input[from..][2..] == input[from + 2..];
    var quote := Scan(input, from + 2, IsQuote);
    if quote == |input| {
      return None, cursor;
    }
    cursor := quote + 1;
    var n := quote - (from + 2);
    assert input[from + 2..][..n] == input[from + 2..quote] && input[from + 2..][n + 1..] == input[cursor..];
    return Some(Attribute(name, Some(input[from + 2..quote]))), cursor;
  }

  /** One turn of `parse_attributes`. */
  method ScanAttribute(input: Str, from: nat) returns (ended: bool, attribute: Option<Attribute>, cursor: nat)
    requires from <= |input|
    ensures var reading := ReadOne(input[from..]);
            if ended then reading == End
            else if attribute.None? then reading == Malformed
            else from < cursor <= |input| && reading == Got(attribute.value, input[cursor..])
  {
    hide Until, IsName, ReadValue;
    cursor := Scan(input, from, NotSpace);
    ended, attribute := false, None;
    assert SkipSpace(input[from..]) == input[cursor..];
    if cursor == |input| {
      return true, None, cursor;
    }
    var end := Scan(input, cursor, EndsName);
    var n := end - cursor;
    assert input[cursor..][..n] == input[cursor..end] && input[cursor..][n..] == input[end..];
    if !IsName(input[cursor..end]) {
      return;
    }
    assert cursor < end by { NamesAreNonempty(input[cursor..end]); }
    var next := Scan(input, end, NotSpace);
    assert SkipSpace(input[end..]) == input[next..];
    attribute, cursor := ScanValue(input, next, input[cursor..end]);
  }

  lemma NamesAreNonempty(name: Str)
    requires IsName(name)
    ensures name != []
  {
  }

  /** `parse_attributes`. */
  method ParseAttributes(input: Str) returns (r: Option<seq<Attribute>>)
    ensures r == Parsed(input, [])
  {
    hide ReadOne;
    var cursor := 0;
    var attributes: seq<Attribute> := [];
    assert input[0..] == input;
    while cursor < |input|
      invariant cursor <= |input|
      invariant Parsed(input[cursor..], attributes) == Parsed(input, [])
    {
      var ended, attribute, next := ScanAttribute(input, cursor);
      if ended {
        return Some(attributes);
      }
      if attribute.None? || HasName(attributes, attribute.value.name) {
        return None;
      }
      attributes, cursor := attributes + [attribute.value], next;
    }
    NothingLeft(input[cursor..]);
    return Some(attributes);
  }

  lemma NothingLeft(s: Str)
    requires s == []
    ensures ReadOne(s) == End
  {
  }

  // ----- Writing and reading ---------------------------------------------------------------------

  predicate IsWritable(attribute: Attribute) {
    IsName(attribute.name) && (attribute.value.Some? ==> QUOTE !in attribute.value.value)
  }

  /** Attributes that can be written: distinct names, and values without quotes. */
  ghost predicate IsPrintable(attributes: seq<Attribute>) {
    && (forall k :: 0 <= k < |attributes| ==> IsWritable(attributes[k]))
    && (forall i, j :: 0 <= i < j < |attributes| ==> attributes[i].name != attributes[j].name)
  }

  /** White space before an attribute, and between its name and its equals sign. */
  datatype Space = Space(lead: Str, gap: Str)

  predicate IsBlank(s: Str) {
    forall k :: 0 <= k < |s| ==> IsAsciiWhitespace(s[k])
  }

  function Write(attribute: Attribute, space: Space): Str {
    space.lead + attribute.name
    + if attribute.value.Some? then space.gap + ([EQUALS, QUOTE] + attribute.value.value + [QUOTE]) else []
  }

  function WriteAll(attributes: seq<Attribute>, spaces: seq<Space>, end: Str): Str
    requires |spaces| == |attributes|
  {
    if attributes == [] then end
    else Write(attributes[0], spaces[0]) + WriteAll(attributes[1..], spaces[1..], end)
  }

  /** Any white space will do, also none, except that something has to follow a name without a value
      before the next name. */
  ghost predicate IsLayout(attributes: seq<Attribute>, spaces: seq<Space>, end: Str) {
    && |spaces| == |attributes|
    && IsBlank(end)
    && (forall k :: 0 <= k < |spaces| ==> IsBlank(spaces[k].lead) && IsBlank(spaces[k].gap))
    && (forall k, next :: 0 <= k < next < |attributes| && next == k + 1 && attributes[k].value.None? ==>
          spaces[next].lead != [])
  }

  /** `s` spells `attributes`, in some layout. */
  ghost predicate Spells(s: Str, attributes: seq<Attribute>) {
    && IsPrintable(attributes)
    && exists spaces, end :: IsLayout(attributes, spaces, end) && s == WriteAll(attributes, spaces, end)
  }

  lemma {:induction false} UntilIs(s: Str, n: nat, stops: byte -> bool)
    requires n <= |s| && (n < |s| ==> stops(s[n]))
    requires forall k :: 0 <= k < n ==> !stops(s[k])
    ensures Until(s, stops) == n
  {
    if n > 0 {
      UntilIs(s[1..], n - 1, stops);
    }
  }

  lemma NameByteIsPlain(c: byte)
    ensures IsNameByte(c) ==> NotSpace(c) && !EndsName(c)
  {
  }

  lemma SkipBlank(lead: Str, a: Str)
    requires IsBlank(lead) && (a != [] ==> NotSpace(a[0]))
    ensures SkipSpace(lead + a) == a
  {
    UntilIs(lead + a, |lead|, NotSpace);
    assert (lead + a)[|lead|..] == a;
  }

  lemma SkipNone(s: Str)
    requires s != [] ==> NotSpace(s[0])
    ensures SkipSpace(s) == s
  {
    UntilIs(s, 0, NotSpace);
  }

  lemma ReadName(lead: Str, name: Str, tail: Str)
    requires IsBlank(lead) && IsName(name) && (tail != [] ==> EndsName(tail[0]))
    ensures ReadOne(lead + (name + tail)) == ReadValue(name, SkipSpace(tail))
  {
    var a := name + tail;
    forall k | 0 <= k < |name| ensures NotSpace(a[k]) && !EndsName(a[k]) {
      assert name[k] in name;
      NameByteIsPlain(name[k]);
    }
    hide IsName, ReadValue, EndsName, NotSpace;
    SkipBlank(lead, a);
    UntilIs(a, |name|, EndsName);
    assert a[..|name|] == name && a[|name|..] == tail;
  }

  lemma ReadQuoted(name: Str, value: Str, rest: Str)
    requires QUOTE !in value
    ensures ReadValue(name, [EQUALS, QUOTE] + value + [QUOTE] + rest) == Got(Attribute(name, Some(value)), rest)
  {
    var (b, v) := ([EQUALS, QUOTE] + value + [QUOTE] + rest, value + [QUOTE] + rest);
    assert b[2..] == v;
    assert v[|value|] == QUOTE && forall k :: 0 <= k < |value| ==> v[k] == value[k] && value[k] in value;
    UntilIs(v, |value|, IsQuote);
    hide Until;
    assert v[..|value|] == value && v[|value| + 1..] == rest;
  }

  /** What may follow a name without a value: nothing, or white space and then at most another name. */
  predicate EndsBareName(rest: Str) {
    var b := SkipSpace(rest);
    (rest != [] ==> IsAsciiWhitespace(rest[0])) && (b != [] ==> IsNameByte(b[0]))
  }

  /** Reading what a written attribute begins with gives it back, and the rest. */
  lemma ReadWritten(attribute: Attribute, space: Space, rest: Str)
    requires IsWritable(attribute) && IsBlank(space.lead) && IsBlank(space.gap)
    requires attribute.value.None? ==> EndsBareName(rest)
    ensures ReadOne(Write(attribute, space) + rest) == Got(attribute, if attribute.value.Some? then rest else SkipSpace(rest))
  {
    hide IsName, Until, IsNameByte, SkipSpace, ReadOne, ReadValue;
    var name := attribute.name;
    if attribute.value.Some? {
      var quoted := [EQUALS, QUOTE] + attribute.value.value + [QUOTE] + rest;
      var tail := space.gap + quoted;
      assert Write(attribute, space) + rest == space.lead + (name + tail);
      ReadName(space.lead, name, tail);
      SkipBlank(space.gap, quoted);
      ReadQuoted(name, attribute.value.value, rest);
    } else {
      assert Write(attribute, space) + rest == space.lead + (name + rest);
      ReadName(space.lead, name, rest);
      BareName(name, SkipSpace(rest));
    }
  }

  lemma BareName(name: Str, b: Str)
    requires b != [] ==> IsNameByte(b[0])
    ensures ReadValue(name, b) == Got(Attribute(name, None), b)
  {
  }

  /** Written attributes begin with their first lead, and then a name. */
  lemma WrittenStart(attributes: seq<Attribute>, spaces: seq<Space>, end: Str)
    requires (forall k :: 0 <= k < |attributes| ==> IsWritable(attributes[k])) && IsLayout(attributes, spaces, end)
    requires attributes != [] ==> spaces[0].lead != []
    ensures EndsBareName(WriteAll(attributes, spaces, end))
  {
    hide SkipSpace;
    if attributes == [] {
      assert end + [] == end;
      SkipBlank(end, []);
    } else {
      var (first, lead) := (attributes[0], spaces[0].lead);
      var s := WriteAll(attributes, spaces, end);
      assert first.name[0] in first.name;
      NameByteIsPlain(first.name[0]);
      assert s == lead + s[|lead|..] && s[|lead|] == first.name[0];
      SkipBlank(lead, s[|lead|..]);
    }
  }

  /** Leading space makes no difference. */
  lemma ParsedSkips(s: Str, done: seq<Attribute>)
    ensures Parsed(SkipSpace(s), done) == Parsed(s, done)
  {
    var a := SkipSpace(s);
    UntilIs(a, 0, NotSpace);
    assert a[0..] == a;
    assert SkipSpace(a) == a;
    assert ReadOne(a) == ReadOne(s);
  }

  lemma ParsedStep(s: Str, done: seq<Attribute>)
    requires ReadOne(s).Got? && !HasName(done, ReadOne(s).attribute.name)
    ensures Parsed(s, done) == Parsed(ReadOne(s).rest, done + [ReadOne(s).attribute])
  {
    hide ReadOne;
  }

  lemma AppendIsPrintable(done: seq<Attribute>, attribute: Attribute)
    requires IsPrintable(done) && !HasName(done, attribute.name) && IsWritable(attribute)
    ensures IsPrintable(done + [attribute])
  {
    hide IsWritable;
  }

  lemma ParsedBlank(end: Str, done: seq<Attribute>)
    requires IsBlank(end)
    ensures Parsed(end, done) == Some(done)
  {
    assert end + [] == end;
    SkipBlank(end, []);
  }

  /** `parse_attributes` inverts writing, in every layout. */
  lemma {:induction false} ParseInvertsWrite(attributes: seq<Attribute>, spaces: seq<Space>, end: Str, done: seq<Attribute>)
    requires IsPrintable(done + attributes) && IsLayout(attributes, spaces, end)
    ensures Parsed(WriteAll(attributes, spaces, end), done) == Some(done + attributes)
    decreases |attributes|
  {
    if attributes == [] {
      ParsedBlank(end, done);
      assert done + attributes == done;
    } else {
      SuffixIsPrintable(done, attributes);
      hide IsPrintable, IsWritable, Parsed, ReadOne, SkipSpace, Write, HasName, IsBlank, EndsBareName;
      var (first, rest) := (attributes[0], WriteAll(attributes[1..], spaces[1..], end));
      var next := done + [first];
      assert next + attributes[1..] == done + attributes;
      RestIsLayout(attributes, spaces, end);
      if first.value.None? {
        PrintableIsWritable(attributes[1..]);
        WrittenStart(attributes[1..], spaces[1..], end);
      }
      ReadWritten(first, spaces[0], rest);
      ParsedStep(Write(first, spaces[0]) + rest, done);
      ParsedSkips(rest, next);
      hide IsLayout;
      ParseInvertsWrite(attributes[1..], spaces[1..], end, next);
    }
  }

  lemma PrintableIsWritable(attributes: seq<Attribute>)
    requires IsPrintable(attributes)
    ensures forall k :: 0 <= k < |attributes| ==> IsWritable(attributes[k])
  {
  }

  lemma RestIsLayout(attributes: seq<Attribute>, spaces: seq<Space>, end: Str)
    requires attributes != [] && IsLayout(attributes, spaces, end)
    ensures IsLayout(attributes[1..], spaces[1..], end)
    ensures attributes[0].value.None? && attributes[1..] != [] ==> spaces[1..][0].lead != []
  {
    hide IsBlank;
    forall k, next | 0 <= k < next < |attributes[1..]| && next == k + 1 && attributes[1..][k].value.None?
      ensures spaces[1..][next].lead != []
    {
      var (before, after) := (k + 1, next + 1);
      assert attributes[before].value.None? && after == before + 1;
    }
  }

  lemma SuffixIsPrintable(done: seq<Attribute>, attributes: seq<Attribute>)
    requires IsPrintable(done + attributes) && attributes != []
    ensures IsWritable(attributes[0])
    ensures !HasName(done, attributes[0].name)
    ensures IsPrintable(attributes[1..])
  {
    hide IsWritable;
    var all := done + attributes;
    assert all[|done|] == attributes[0];
    forall k | 0 <= k < |done| ensures done[k].name != attributes[0].name {
      assert all[k] == done[k];
    }
    forall k | 0 <= k < |attributes| ensures all[|done| + k] == attributes[k] {
    }
    forall k | 0 <= k < |attributes[1..]|
      ensures attributes[1..][k] == all[|done| + 1 + k]
    {
    }
  }

  lemma SkipSplits(s: Str) returns (lead: Str)
    ensures IsBlank(lead) && s == lead + SkipSpace(s)
  {
    lead := s[..Until(s, NotSpace)];
  }

  lemma ReadParts(s: Str) returns (lead: Str, name: Str, after: Str)
    requires ReadOne(s).Got?
    ensures IsBlank(lead) && IsName(name) && s == lead + (name + after) && (after != [] ==> EndsName(after[0]))
    ensures ReadOne(s) == ReadValue(name, SkipSpace(after))
  {
    lead := SkipSplits(s);
    var a := SkipSpace(s);
    var e := Until(a, EndsName);
    name, after := a[..e], a[e..];
    hide IsName, Until, SkipSpace, IsBlank;
    assert a == name + after;
  }

  /** How a reading came about: some lead, the name, and then the value or the end of a bare name. */
  lemma ReadSplits(s: Str) returns (space: Space, tail: Str)
    requires ReadOne(s).Got?
    ensures var (attribute, rest) := (ReadOne(s).attribute, ReadOne(s).rest);
            && IsWritable(attribute) && IsBlank(space.lead) && IsBlank(space.gap)
            && s == Write(attribute, space) + tail && |tail| < |s|
            && (attribute.value.Some? ==> tail == rest)
            && (attribute.value.None? ==> rest == SkipSpace(tail) && (tail != [] ==> IsAsciiWhitespace(tail[0])))
  {
    var lead, name, after := ReadParts(s);
    NamesAreNonempty(name);
    hide ReadOne, ReadValue, SkipSpace, IsName, IsBlank, EndsName, IsWritable, Write;
    if ReadValue(name, SkipSpace(after)).attribute.value.Some? {
      space, tail := ValueSplits(lead, name, after);
    } else {
      space := BareSplits(lead, name, after);
      tail := after;
    }
  }

  lemma ValueSplits(lead: Str, name: Str, after: Str) returns (space: Space, tail: Str)
    requires IsBlank(lead) && IsName(name)
    requires ReadValue(name, SkipSpace(after)).Got? && ReadValue(name, SkipSpace(after)).attribute.value.Some?
    ensures var (attribute, rest) := (ReadValue(name, SkipSpace(after)).attribute, ReadValue(name, SkipSpace(after)).rest);
            && IsWritable(attribute) && IsBlank(space.lead) && IsBlank(space.gap) && tail == rest
            && lead + (name + after) == Write(attribute, space) + tail && |tail| < |lead + (name + after)|
  {
    var gap := SkipSplits(after);
    var b := SkipSpace(after);
    var (value, rest) := (ReadValue(name, b).attribute.value.value, ReadValue(name, b).rest);
    QuotedSplits(name, b);
    hide SkipSpace, IsName, IsBlank;
    assert ReadValue(name, b).attribute.name == name;
    hide ReadValue;
    space, tail := Space(lead, gap), rest;
    FivePieces(lead, name, gap, [EQUALS, QUOTE] + value + [QUOTE], rest);
  }

  lemma FivePieces(a: Str, b: Str, c: Str, d: Str, e: Str)
    ensures a + (b + (c + (d + e))) == a + b + (c + d) + e
  {
  }

  lemma NothingIsBlank()
    ensures IsBlank([])
  {
  }

  lemma QuotedSplits(name: Str, b: Str)
    requires ReadValue(name, b).Got? && ReadValue(name, b).attribute.value.Some?
    ensures var (value, rest) := (ReadValue(name, b).attribute.value.value, ReadValue(name, b).rest);
            QUOTE !in value && b == [EQUALS, QUOTE] + value + [QUOTE] + rest
  {
    var v := b[2..];
    var q := Until(v, IsQuote);
    assert b == [EQUALS, QUOTE] + v && v == v[..q] + [QUOTE] + v[q + 1..];
  }

  lemma BareSplits(lead: Str, name: Str, after: Str) returns (space: Space)
    requires IsBlank(lead) && IsName(name) && name != []
    requires ReadValue(name, SkipSpace(after)).Got? && ReadValue(name, SkipSpace(after)).attribute.value.None?
    requires after != [] ==> EndsName(after[0])
    ensures var reading := ReadValue(name, SkipSpace(after));
            && IsWritable(reading.attribute) && IsBlank(space.lead) && IsBlank(space.gap)
            && lead + (name + after) == Write(reading.attribute, space) + after
            && |after| < |lead + (name + after)| && reading.rest == SkipSpace(after)
    ensures after != [] ==> IsAsciiWhitespace(after[0])
  {
    NothingIsBlank();
    space := Space(lead, []);
    assert lead + (name + after) == lead + name + [] + after;
    hide IsName, IsBlank;
    if after != [] && after[0] == EQUALS {
      SkipNone(after);
    }
  }

  lemma ParsedMore(s: Str, done: seq<Attribute>)
    requires Parsed(s, done).Some?
    ensures ReadOne(s) == End ==> IsBlank(s) && Parsed(s, done) == Some(done)
    ensures ReadOne(s) != End ==>
              && ReadOne(s).Got? && !HasName(done, ReadOne(s).attribute.name)
              && Parsed(s, done) == Parsed(ReadOne(s).rest, done + [ReadOne(s).attribute])
  {
    if ReadOne(s) == End {
      var lead := SkipSplits(s);
      assert SkipSpace(s) == [];
      assert s == lead;
    }
    hide Until, IsName;
  }

  lemma NothingWritten(end: Str)
    requires IsBlank(end)
    ensures IsLayout([], [], end) && WriteAll([], [], end) == end
  {
  }

  /** Whatever is accepted has distinct valid names and quote-free values. */
  lemma {:induction false} ParsedIsPrintable(s: Str, done: seq<Attribute>)
    requires IsPrintable(done) && Parsed(s, done).Some?
    ensures IsPrintable(Parsed(s, done).value)
    decreases |s|
  {
    hide *;
    ParsedMore(s, done);
    if ReadOne(s) != End {
      var attribute := ReadOne(s).attribute;
      var _, _ := ReadSplits(s);
      AppendIsPrintable(done, attribute);
      ParsedIsPrintable(ReadOne(s).rest, done + [attribute]);
    }
  }

  /** Whatever is accepted was written in some layout. */
  lemma {:induction false} ParsedIsWritten(s: Str, done: seq<Attribute>)
    returns (attributes: seq<Attribute>, spaces: seq<Space>, end: Str)
    requires Parsed(s, done).Some?
    ensures Parsed(s, done) == Some(done + attributes)
    ensures forall k :: 0 <= k < |attributes| ==> IsWritable(attributes[k])
    ensures IsLayout(attributes, spaces, end) && s == WriteAll(attributes, spaces, end)
    decreases |s|
  {
    hide *;
    ParsedMore(s, done);
    if ReadOne(s) == End {
      attributes, spaces, end := [], [], s;
      assert done + [] == done;
      NothingWritten(s);
    } else {
      var attribute := ReadOne(s).attribute;
      var space, tail := ReadSplits(s);
      var next := done + [attribute];
      ParsedSkips(tail, next);
      var more, moreSpaces;
      more, moreSpaces, end := ParsedIsWritten(tail, next);
      attributes, spaces := [attribute] + more, [space] + moreSpaces;
      WrittenGrows(attribute, space, tail, more, moreSpaces, end);
      assert next + more == done + attributes;
    }
  }

  lemma WrittenGrows(attribute: Attribute, space: Space, tail: Str, more: seq<Attribute>, spaces: seq<Space>, end: Str)
    requires IsWritable(attribute) && (forall k :: 0 <= k < |more| ==> IsWritable(more[k]))
    requires IsBlank(space.lead) && IsBlank(space.gap)
    requires IsLayout(more, spaces, end) && tail == WriteAll(more, spaces, end)
    requires attribute.value.None? && tail != [] ==> IsAsciiWhitespace(tail[0])
    ensures forall k :: 0 <= k < |[attribute] + more| ==> IsWritable(([attribute] + more)[k])
    ensures IsLayout([attribute] + more, [space] + spaces, end)
    ensures Write(attribute, space) + tail == WriteAll([attribute] + more, [space] + spaces, end)
  {
    hide IsWritable, IsBlank, Write;
    if attribute.value.None? && more != [] {
      LeadIsNonempty(more, spaces, end);
    }
    LayoutGrows(attribute, space, more, spaces, end);
  }

  lemma LeadIsNonempty(attributes: seq<Attribute>, spaces: seq<Space>, end: Str)
    requires attributes != [] && |spaces| == |attributes| && IsWritable(attributes[0])
    requires var s := WriteAll(attributes, spaces, end); s != [] ==> IsAsciiWhitespace(s[0])
    ensures spaces[0].lead != []
  {
    var name := attributes[0].name;
    assert name[0] in name;
    NameByteIsPlain(name[0]);
    assert WriteAll(attributes, spaces, end)[|spaces[0].lead|] == name[0];
  }

  lemma LayoutGrows(attribute: Attribute, space: Space, attributes: seq<Attribute>, spaces: seq<Space>, end: Str)
    requires IsLayout(attributes, spaces, end) && IsBlank(space.lead) && IsBlank(space.gap)
    requires attribute.value.None? && attributes != [] ==> spaces[0].lead != []
    ensures IsLayout([attribute] + attributes, [space] + spaces, end)
    ensures WriteAll([attribute] + attributes, [space] + spaces, end)
         == Write(attribute, space) + WriteAll(attributes, spaces, end)
  {
    hide IsBlank, Write;
    assert ([attribute] + attributes)[1..] == attributes && ([space] + spaces)[1..] == spaces;
    var (all, allSpaces) := ([attribute] + attributes, [space] + spaces);
    forall k, next | 0 <= k < next < |all| && next == k + 1 && all[k].value.None? ensures allSpaces[next].lead != [] {
      if k > 0 {
        var (before, after) := (k - 1, next - 1);
        assert attributes[before] == all[k] && spaces[after] == allSpaces[next];
      }
    }
  }

  /** `parse_attributes` accepts exactly the texts that spell distinct attributes in some layout, and
      gives back what they spell. */
  lemma ParsedIsSpelled(s: Str, attributes: seq<Attribute>)
    ensures Parsed(s, []) == Some(attributes) <==> Spells(s, attributes)
  {
    hide Parsed, IsPrintable, WriteAll, IsBlank;
    assert [] + attributes == attributes;
    if Parsed(s, []) == Some(attributes) {
      assert IsPrintable([]) by { NothingIsPrintable(); }
      ParsedIsPrintable(s, []);
      var read, spaces, end := ParsedIsWritten(s, []);
      assert [] + read == read;
    }
    if Spells(s, attributes) {
      var spaces, end :| IsLayout(attributes, spaces, end) && s == WriteAll(attributes, spaces, end);
      ParseInvertsWrite(attributes, spaces, end, []);
    }
  }

  lemma NothingIsPrintable()
    ensures IsPrintable([])
  {
  }

  // ----- Nesting ---------------------------------------------------------------------------------

  datatype Item = Opens(name: Str) | Closes(name: Str)

  datatype Tree = Node(name: Str, children: seq<Tree>)

  /** The tags of a forest, in document order. */
  ghost function Serialized(forest: seq<Tree>): seq<Item>
    decreases forest
  {
    if forest == [] then []
    else Tags(forest[0]) + Serialized(forest[1..])
  }

  ghost function Tags(tree: Tree): seq<Item>
    decreases tree
  {
    [Opens(tree.name)] + Serialized(tree.children) + [Closes(tree.name)]
  }

  /** The stack machine of `inspect_html`: the stack after `items`, if nothing is refused. */
  function Nest(items: seq<Item>, stack: seq<Str>): Option<seq<Str>> {
    if items == [] then Some(stack)
    else
      match items[0]
      case Opens(name) => Nest(items[1..], stack + [name])
      case Closes(name) =>
        if stack == [] || stack[|stack| - 1] != name then None else Nest(items[1..], stack[..|stack| - 1])
  }

  lemma {:induction false} NestAppend(a: seq<Item>, b: seq<Item>, stack: seq<Str>)
    ensures Nest(a + b, stack) == if Nest(a, stack).Some? then Nest(b, Nest(a, stack).value) else None
    decreases |a|
  {
    if a == [] {
      assert a + b == b;
    } else {
      assert (a + b)[1..] == a[1..] + b;
      match a[0]
      case Opens(name) => NestAppend(a[1..], b, stack + [name]);
      case Closes(name) =>
        if stack != [] && stack[|stack| - 1] == name {
          NestAppend(a[1..], b, stack[..|stack| - 1]);
        }
    }
  }

  /** A forest leaves the stack as it was. */
  lemma {:induction false} ForestNests(forest: seq<Tree>, stack: seq<Str>)
    ensures Nest(Serialized(forest), stack) == Some(stack)
    decreases forest
  {
    if forest != [] {
      TreeNests(forest[0], stack);
      ForestNests(forest[1..], stack);
      NestAppend(Tags(forest[0]), Serialized(forest[1..]), stack);
    }
  }

  lemma {:induction false} TreeNests(tree: Tree, stack: seq<Str>)
    ensures Nest(Tags(tree), stack) == Some(stack)
    decreases tree
  {
    var inner := stack + [tree.name];
    ForestNests(tree.children, inner);
    NestAppend(Serialized(tree.children), [Closes(tree.name)], inner);
    assert Tags(tree) == [Opens(tree.name)] + (Serialized(tree.children) + [Closes(tree.name)]);
    assert inner[..|inner| - 1] == stack;
    hide Serialized, Tags;
    NestOne(tree.name, inner);
    NestAppend([Opens(tree.name)], Serialized(tree.children) + [Closes(tree.name)], stack);
    NestOpen(tree.name, stack);
  }

  lemma NestOpen(name: Str, stack: seq<Str>)
    ensures Nest([Opens(name)], stack) == Some(stack + [name])
  {
    assert [Opens(name)][1..] == [];
  }

  lemma NestOne(name: Str, stack: seq<Str>)
    requires stack != []
    ensures Nest([Closes(name)], stack) == if stack[|stack| - 1] == name then Some(stack[..|stack| - 1]) else None
  {
    assert [Closes(name)][1..] == [];
  }

  lemma {:induction false} SerializedAppend(a: seq<Tree>, b: seq<Tree>)
    ensures Serialized(a + b) == Serialized(a) + Serialized(b)
    decreases |a|
  {
    if a == [] {
      assert a + b == b;
    } else {
      assert (a + b)[1..] == a[1..] + b;
      SerializedAppend(a[1..], b);
    }
  }

  /** Below each open tag, the complete trees before it. */
  datatype Frame = Frame(before: seq<Tree>, name: Str)

  ghost function Unfinished(frames: seq<Frame>, last: seq<Tree>): seq<Item> {
    if frames == [] then Serialized(last)
    else
      var top := frames[|frames| - 1];
      Unfinished(frames[..|frames| - 1], top.before) + [Opens(top.name)] + Serialized(last)
  }

  ghost predicate AreFramesOf(frames: seq<Frame>, stack: seq<Str>) {
    |frames| == |stack| && forall k :: 0 <= k < |stack| ==> frames[k].name == stack[k]
  }

  /** Whatever the machine has consumed is complete trees between the tags still open. */
  lemma {:induction false} ConsumedIsFramed(items: seq<Item>) returns (frames: seq<Frame>, last: seq<Tree>)
    requires Nest(items, []).Some?
    ensures AreFramesOf(frames, Nest(items, []).value)
    ensures Unfinished(frames, last) == items
    decreases |items|
  {
    if items == [] {
      frames, last := [], [];
    } else {
      var (front, item) := (items[..|items| - 1], items[|items| - 1]);
      assert items == front + [item];
      NestAppend(front, [item], []);
      var stack := Nest(front, []).value;
      frames, last := ConsumedIsFramed(front);
      hide Nest;
      match item
      case Opens(name) =>
        NestOpen(name, stack);
        frames := OpenFrame(frames, last, name);
        last := [];
      case Closes(name) =>
        CloseNeedsStack(name, stack);
        NestOne(name, stack);
        var closed := CloseFrame(frames, last);
        frames, last := frames[..|frames| - 1], closed;
    }
  }

  lemma CloseNeedsStack(name: Str, stack: seq<Str>)
    requires Nest([Closes(name)], stack).Some?
    ensures stack != [] && stack[|stack| - 1] == name
  {
  }

  lemma OpenFrame(frames: seq<Frame>, last: seq<Tree>, name: Str) returns (more: seq<Frame>)
    ensures more == frames + [Frame(last, name)]
    ensures Unfinished(more, []) == Unfinished(frames, last) + [Opens(name)]
  {
    more := frames + [Frame(last, name)];
    assert more[..|more| - 1] == frames;
  }

  lemma CloseFrame(frames: seq<Frame>, last: seq<Tree>) returns (closed: seq<Tree>)
    requires frames != []
    ensures Unfinished(frames[..|frames| - 1], closed)
         == Unfinished(frames, last) + [Closes(frames[|frames| - 1].name)]
  {
    var (lower, top) := (frames[..|frames| - 1], frames[|frames| - 1]);
    var tree := Node(top.name, last);
    closed := top.before + [tree];
    SerializedAppend(top.before, [tree]);
    OneTree(tree);
    UnfinishedAppend(lower, top.before, [tree]);
    hide Serialized;
    assert Tags(tree) == [Opens(top.name)] + Serialized(last) + [Closes(top.name)];
  }

  lemma OneTree(tree: Tree)
    ensures Serialized([tree]) == Tags(tree)
  {
    assert [tree][1..] == [];
    assert Serialized([]) == [];
  }

  lemma UnfinishedAppend(frames: seq<Frame>, a: seq<Tree>, b: seq<Tree>)
    ensures Unfinished(frames, a + b) == Unfinished(frames, a) + Serialized(b)
  {
    SerializedAppend(a, b);
    hide Serialized;
  }

  /** The machine accepts exactly the tag sequences of forests. */
  lemma AcceptsForests(items: seq<Item>)
    ensures Nest(items, []) == Some([]) <==> exists forest :: Serialized(forest) == items
  {
    if Nest(items, []) == Some([]) {
      var frames, forest := ConsumedIsFramed(items);
      assert Serialized(forest) == items;
    }
    if forest :| Serialized(forest) == items {
      ForestNests(forest, []);
    }
  }

  // ----- Pages ---------------------------------------------------------------------------------------

  /** How many style sheets, bridge scripts and policies a page names. */
  datatype Counts = Counts(css: nat, bridge: nat, csp: nat)

  const NO_COUNTS := Counts(0, 0, 0)

  function Sum(a: Counts, b: Counts): Counts {
    Counts(a.css + b.css, a.bridge + b.bridge, a.csp + b.csp)
  }

  /** `validate_attributes`: a table of permitted attributes, about which nothing is assumed. */
  type AttributeTable = (Str, seq<Attribute>, bool) -> Option<Counts>

  const BODY_TAGS: seq<string> := [
    "main", "section", "div", "p", "h1", "h2", "h3", "h4", "h5", "h6", "blockquote", "pre", "code", "em", "strong",
    "del", "ul", "ol", "li", "table", "thead", "tbody", "tr", "th", "td", "hr", "br", "sup", "a", "span"
  ]
  const PAGE_TAGS: seq<string> := ["html", "head", "meta", "link", "script", "body"]
  const VOID_TAGS: seq<string> := ["hr", "br", "meta", "link"]

  predicate IsOneOf(name: Str, tags: seq<string>) {
    exists k :: 0 <= k < |tags| && Bytes(tags[k]) == name
  }

  /** `allowed_tag`. */
  predicate IsAllowedTag(name: Str, completePage: bool) {
    IsOneOf(name, BODY_TAGS) || (completePage && IsOneOf(name, PAGE_TAGS))
  }

  const IsSpace: byte -> bool := (c: byte) => IsAsciiWhitespace(c)
  const IsLess: byte -> bool := (c: byte) => c == LESS
  const IsGreater: byte -> bool := (c: byte) => c == GREATER

  /** What a token, or a stretch of text, contributes. */
  datatype Piece = Piece(items: seq<Item>, counts: Counts)

  const NOTHING := Piece([], NO_COUNTS)

  function ReadToken(token: Str, completePage: bool, table: AttributeTable): Option<Piece> {
    if Refs.ToLower(token) == Bytes("!doctype html") then
      if completePage then Some(NOTHING) else None
    else if token != [] && token[0] == Refs.SLASH then
      if IsName(token[1..]) then Some(Piece([Closes(token[1..])], NO_COUNTS)) else None
    else
      var e := Until(token, IsSpace);
      var (name, attributes) := (token[..e], Parsed(token[e..], []));
      if !IsAllowedTag(name, completePage) || attributes.None? then None
      else
        var counts := table(name, attributes.value, completePage);
        if counts.None? then None
        else Some(Piece(if IsOneOf(name, VOID_TAGS) then [] else [Opens(name)], counts.value))
  }

  function Joined(a: Piece, b: Option<Piece>): Option<Piece> {
    if b.None? then None else Some(Piece(a.items + b.value.items, Sum(a.counts, b.value.counts)))
  }

  function Prepended(token: Option<Piece>, page: Option<Piece>): Option<Piece> {
    if token.None? then None else Joined(token.value, page)
  }

  datatype Found = NoTag | Unclosed | Tag(start: nat, end: nat)

  /** The next pair of brackets. */
  function FindTag(s: Str): (found: Found)
    ensures found.Tag? ==> found.start < found.end < |s|
  {
    var start := Until(s, IsLess);
    if start == |s| then NoTag
    else
      var end := start + Until(s[start..], IsGreater);
      if end == |s| then Unclosed else Tag(start, end)
  }

  /** All tags of a text, between angle brackets. */
  function ReadPage(html: Str, completePage: bool, table: AttributeTable): Option<Piece>
    decreases |html|
  {
    match FindTag(html)
    case NoTag => Some(NOTHING)
    case Unclosed => None
    case Tag(start, end) =>
      Prepended(ReadToken(html[start + 1..end], completePage, table), ReadPage(html[end + 1..], completePage, table))
  }

  /** A complete page names each resource once, a body none. */
  function Required(completePage: bool): Counts {
    if completePage then Counts(1, 1, 1) else NO_COUNTS
  }

  predicate IsAccepted(html: Str, completePage: bool, table: AttributeTable) {
    var page := ReadPage(html, completePage, table);
    && page.Some?
    && Nest(page.value.items, []) == Some([])
    && page.value.counts == Required(completePage)
  }

  /** What `inspect_html` accepts: the tags of a forest, with exactly the required resources. */
  lemma AcceptedIsForest(html: Str, completePage: bool, table: AttributeTable)
    ensures IsAccepted(html, completePage, table) <==>
              exists forest :: ReadPage(html, completePage, table) == Some(Piece(Serialized(forest), Required(completePage)))
  {
    hide ReadPage, Nest, Serialized;
    var page := ReadPage(html, completePage, table);
    if page.Some? {
      AcceptsForests(page.value.items);
    }
  }

  // ----- What stands between the brackets ---------------------------------------------------------------

  /** `token` opens a tag of that name: the name ends at white space or with the token, is on the list for
      this kind of page, and is followed by attributes that the table permits. */
  ghost predicate OpensTag(
    token: Str, end: int, attributes: seq<Attribute>, completePage: bool, table: AttributeTable, counts: Counts)
  {
    && 0 <= end <= |token|
    && (forall k :: 0 <= k < end ==> !IsAsciiWhitespace(token[k]))
    && (end < |token| ==> IsAsciiWhitespace(token[end]))
    && ((exists k :: 0 <= k < |BODY_TAGS| && token[..end] == Bytes(BODY_TAGS[k]))
        || (completePage && exists k :: 0 <= k < |PAGE_TAGS| && token[..end] == Bytes(PAGE_TAGS[k])))
    && Spells(token[end..], attributes)
    && table(token[..end], attributes, completePage) == Some(counts)
  }

  /** What a token contributes: a document type of a complete page nothing, a closing tag its name, an
      opening tag its name, unless it is void, and what the table counts for it. Nothing else is read. */
  lemma TokenIsExact(token: Str, completePage: bool, table: AttributeTable, piece: Piece)
    ensures ReadToken(token, completePage, table) == Some(piece) <==>
              if Refs.ToLower(token) == Bytes("!doctype html") then completePage && piece == Piece([], Counts(0, 0, 0))
              else if token != [] && token[0] == '/' as int then
                IsName(token[1..]) && piece == Piece([Closes(token[1..])], Counts(0, 0, 0))
              else
                exists end, attributes ::
                  && OpensTag(token, end, attributes, completePage, table, piece.counts)
                  && piece.items == if token[..end] in [Bytes("hr"), Bytes("br"), Bytes("meta"), Bytes("link")] then []
                                    else [Opens(token[..end])]
  {
    OpeningIsExact(token, completePage, table, piece);
    hide Bytes, IsName, OpensTag, Parsed, Until, IsAllowedTag, IsOneOf;
  }

  lemma OpeningIsExact(token: Str, completePage: bool, table: AttributeTable, piece: Piece)
    ensures Refs.ToLower(token) != Bytes("!doctype html") && !(token != [] && token[0] == Refs.SLASH) ==>
              (ReadToken(token, completePage, table) == Some(piece) <==>
                 exists end, attributes ::
                   && OpensTag(token, end, attributes, completePage, table, piece.counts)
                   && piece.items == if token[..end] in [Bytes("hr"), Bytes("br"), Bytes("meta"), Bytes("link")] then []
                                     else [Opens(token[..end])])
  {
    var e := Until(token, IsSpace);
    NameEnds(token, completePage, table, piece.counts);
    hide OpensTag, IsAllowedTag, Until, IsName, Parsed;
    var name := token[..e];
    assert IsOneOf(name, VOID_TAGS) <==> name in [Bytes("hr"), Bytes("br"), Bytes("meta"), Bytes("link")] by {
      assert VOID_TAGS[0] == "hr" && VOID_TAGS[1] == "br" && VOID_TAGS[2] == "meta" && VOID_TAGS[3] == "link";
    }
    hide IsOneOf, Bytes;
    if ReadToken(token, completePage, table) == Some(piece) && Parsed(token[e..], []).Some? {
      assert table(name, Parsed(token[e..], []).value, completePage) == Some(piece.counts) && IsAllowedTag(name, completePage) ==>
        OpensTag(token, e, Parsed(token[e..], []).value, completePage, table, piece.counts);
    }
  }

  /** An opening tag ends its name at the first white space, and its attributes are what the rest spells. */
  lemma NameEnds(token: Str, completePage: bool, table: AttributeTable, counts: Counts)
    ensures var e := Until(token, IsSpace);
            forall end, attributes :: OpensTag(token, end, attributes, completePage, table, counts) <==>
              && end == e && IsAllowedTag(token[..e], completePage) && Parsed(token[e..], []) == Some(attributes)
              && table(token[..e], attributes, completePage) == Some(counts)
  {
    var e := Until(token, IsSpace);
    hide Bytes, Parsed, Spells, Until;
    forall end, attributes
      ensures OpensTag(token, end, attributes, completePage, table, counts) <==>
                && end == e && IsAllowedTag(token[..e], completePage) && Parsed(token[e..], []) == Some(attributes)
                && table(token[..e], attributes, completePage) == Some(counts)
    {
      ParsedIsSpelled(token[e..], attributes);
      assert OpensTag(token, end, attributes, completePage, table, counts) ==> end == e;
    }
  }

  datatype Brackets = Brackets(open: nat, close: nat)

  /** `tags` are all pairs of angle brackets from `from` on: each from an opening bracket to the next closing
      one, with no opening bracket outside of them. */
  ghost predicate AreAllTags(html: Str, from: nat, tags: seq<Brackets>) {
    && from <= |html|
    && (forall k :: 0 <= k < |tags| ==>
          && from <= tags[k].open < tags[k].close < |html|
          && html[tags[k].open] == LESS && html[tags[k].close] == GREATER
          && GREATER !in html[tags[k].open..tags[k].close])
    && (forall k, next :: 0 <= k < next < |tags| && next == k + 1 ==>
          tags[k].close < tags[next].open && LESS !in html[tags[k].close + 1..tags[next].open])
    && LESS !in html[from..if tags == [] then |html| else tags[0].open]
    && (tags != [] ==> LESS !in html[tags[|tags| - 1].close + 1..])
  }

  lemma {:induction false} PageIsRead(html: Str, from: nat, completePage: bool, table: AttributeTable)
    returns (tags: seq<Brackets>)
    requires from <= |html| && ReadPage(html[from..], completePage, table).Some?
    ensures AreAllTags(html, from, tags)
    ensures forall k :: 0 <= k < |tags| ==> ReadToken(html[tags[k].open + 1..tags[k].close], completePage, table).Some?
    decreases |html| - from
  {
    hide ReadToken, ReadPage, FindTag, AreAllTags;
    NoPage(html[from..], completePage, table);
    match FindTag(html[from..])
    case Unclosed =>
    case NoTag =>
      tags := [];
      TextHasNoTag(html, from);
    case Tag(start, end) =>
      var (open, close) := (from + start, from + end);
      FirstTag(html, from, start, end);
      PageAt(html, from, open, close, completePage, table);
      assert ReadToken(html[open + 1..close], completePage, table).Some?;
      var rest := PageIsRead(html, close + 1, completePage, table);
      tags := [Brackets(open, close)] + rest;
      TagsGrow(html, from, Brackets(open, close), rest);
  }

  lemma TextHasNoTag(html: Str, from: nat)
    requires from <= |html| && FindTag(html[from..]) == NoTag
    ensures AreAllTags(html, from, [])
  {
  }

  lemma FirstTag(html: Str, from: nat, start: nat, end: nat)
    requires from <= |html| && FindTag(html[from..]) == Tag(start, end)
    ensures start < end && from + end < |html| && html[from + start] == LESS && html[from + end] == GREATER
    ensures LESS !in html[from..from + start] && GREATER !in html[from + start..from + end]
  {
    var rest := html[from..];
    hide Until;
    assert forall k :: 0 <= k < start ==> !IsLess(rest[k]) && rest[k] == html[from + k];
    assert forall k :: 0 <= k < end - start ==> !IsGreater(rest[start..][k]) && rest[start..][k] == html[from + start + k];
  }

  lemma TagsGrow(html: Str, from: nat, first: Brackets, rest: seq<Brackets>)
    requires from <= first.open < first.close < |html| && AreAllTags(html, first.close + 1, rest)
    requires html[first.open] == LESS && html[first.close] == GREATER
    requires LESS !in html[from..first.open] && GREATER !in html[first.open..first.close]
    ensures AreAllTags(html, from, [first] + rest)
  {
    var tags := [first] + rest;
    forall k | 0 <= k < |tags|
      ensures from <= tags[k].open < tags[k].close < |html|
      ensures html[tags[k].open] == LESS && html[tags[k].close] == GREATER && GREATER !in html[tags[k].open..tags[k].close]
    {
      assert k > 0 ==> tags[k] == rest[k - 1];
    }
    forall k, next | 0 <= k < next < |tags| && next == k + 1
      ensures tags[k].close < tags[next].open && LESS !in html[tags[k].close + 1..tags[next].open]
    {
      assert tags[next] == rest[next - 1] && (k > 0 ==> tags[k] == rest[k - 1]);
    }
    assert rest != [] ==> tags[|tags| - 1] == rest[|rest| - 1];
  }

  /** Every pair of brackets of an accepted page encloses a token that is read. */
  lemma AcceptedPageIsRead(html: Str, completePage: bool, table: AttributeTable)
    requires IsAccepted(html, completePage, table)
    ensures exists tags: seq<Brackets> ::
              && AreAllTags(html, 0, tags)
              && forall k :: 0 <= k < |tags| ==> ReadToken(html[tags[k].open + 1..tags[k].close], completePage, table).Some?
  {
    assert html[0..] == html;
    var tags := PageIsRead(html, 0, completePage, table);
    hide ReadToken;
  }

  /** One tag of the loop: what it contributes, and the stack after it. */
  method InspectToken(token: Str, completePage: bool, table: AttributeTable, stack: seq<Str>)
    returns (counts: Option<Counts>, more: seq<Str>, ghost piece: Piece)
    ensures counts.None? ==>
              || ReadToken(token, completePage, table).None?
              || (ReadToken(token, completePage, table) == Some(piece) && Nest(piece.items, stack).None?)
    ensures counts.Some? ==>
              && ReadToken(token, completePage, table) == Some(piece)
              && piece.counts == counts.value && Nest(piece.items, stack) == Some(more)
  {
    hide IsAllowedTag, IsOneOf, IsName, Parsed, Until, Bytes, Nest;
    more, piece := stack, NOTHING;
    NestNothing(stack);
    if Refs.ToLower(token) == Bytes("!doctype html") {
      return if completePage then Some(NO_COUNTS) else None, more, piece;
    }
    if token != [] && token[0] == Refs.SLASH {
      var name := token[1..];
      if !IsName(name) {
        return None, more, piece;
      }
      piece := Piece([Closes(name)], NO_COUNTS);
      if stack == [] || stack[|stack| - 1] != name {
        WrongClose(name, stack);
        return None, more, piece;
      }
      NestOne(name, stack);
      return Some(NO_COUNTS), stack[..|stack| - 1], piece;
    }
    var end := Scan(token, 0, IsSpace);
    assert token[0..] == token;
    var name := token[..end];
    if !IsAllowedTag(name, completePage) {
      return None, more, piece;
    }
    var attributes := ParseAttributes(token[end..]);
    if attributes.None? {
      return None, more, piece;
    }
    counts := table(name, attributes.value, completePage);
    if counts.None? {
      return;
    }
    if IsOneOf(name, VOID_TAGS) {
      piece := Piece([], counts.value);
    } else {
      piece, more := Piece([Opens(name)], counts.value), stack + [name];
      NestOpen(name, stack);
    }
  }

  lemma NestNothing(stack: seq<Str>)
    ensures Nest([], stack) == Some(stack)
  {
  }

  lemma WrongClose(name: Str, stack: seq<Str>)
    requires stack == [] || stack[|stack| - 1] != name
    ensures Nest([Closes(name)], stack).None?
  {
  }

  /** Pieces join one after the other. */
  lemma JoinedAssociates(a: Piece, b: Piece, c: Option<Piece>)
    ensures Joined(a, Joined(b, c)) == Joined(Piece(a.items + b.items, Sum(a.counts, b.counts)), c)
  {
    if c.Some? {
      assert a.items + (b.items + c.value.items) == (a.items + b.items) + c.value.items;
    }
  }

  /** The search for the next pair of brackets. */
  method NextTag(html: Str, cursor: nat) returns (found: Found)
    requires cursor <= |html|
    ensures found.Tag? ==> cursor <= found.start < found.end < |html|
    ensures FindTag(html[cursor..]) == if found.Tag? then Tag(found.start - cursor, found.end - cursor) else found
  {
    hide Until;
    var start := Scan(html, cursor, IsLess);
    if start == |html| {
      return NoTag;
    }
    assert html[cursor..][start - cursor..] == html[start..];
    var end := Scan(html, start, IsGreater);
    return if end == |html| then Unclosed else Tag(start, end);
  }

  /** The page from `cursor` on, once its first pair of brackets is known. */
  lemma PageAt(html: Str, cursor: nat, start: nat, end: nat, completePage: bool, table: AttributeTable)
    requires cursor <= start < end < |html| && FindTag(html[cursor..]) == Tag(start - cursor, end - cursor)
    ensures ReadPage(html[cursor..], completePage, table)
         == Prepended(ReadToken(html[start + 1..end], completePage, table), ReadPage(html[end + 1..], completePage, table))
  {
    hide FindTag, ReadToken, Prepended;
    var rest := html[cursor..];
    assert rest[start - cursor + 1..end - cursor] == html[start + 1..end] && rest[end - cursor + 1..] == html[end + 1..];
  }

  lemma NoPage(s: Str, completePage: bool, table: AttributeTable)
    ensures FindTag(s) == NoTag ==> ReadPage(s, completePage, table) == Some(NOTHING)
    ensures FindTag(s) == Unclosed ==> ReadPage(s, completePage, table) == None
  {
    hide FindTag, ReadToken, Prepended;
  }

  /** `inspect_html`. */
  method InspectHtml(html: Str, completePage: bool, table: AttributeTable) returns (ok: bool)
    ensures ok <==> IsAccepted(html, completePage, table)
  {
    hide Nest, ReadToken, ReadPage, Joined, Prepended, FindTag;
    var cursor, stack, counts := 0, [], NO_COUNTS;
    ghost var done := NOTHING;
    assert html[0..] == html;
    NestNothing([]);
    JoinedNothing(ReadPage(html, completePage, table));
    while true
      invariant cursor <= |html|
      invariant Nest(done.items, []) == Some(stack) && counts == done.counts
      invariant ReadPage(html, completePage, table) == Joined(done, ReadPage(html[cursor..], completePage, table))
      decreases |html| - cursor
    {
      var found := NextTag(html, cursor);
      NoPage(html[cursor..], completePage, table);
      match found {
        case NoTag => break;
        case Unclosed =>
          NothingJoined(done);
          return false;
        case Tag(start, end) =>
          PageAt(html, cursor, start, end, completePage, table);
          var token := html[start + 1..end];
          var tag, more, piece := InspectToken(token, completePage, table, stack);
          ghost var after := ReadPage(html[end + 1..], completePage, table);
          if tag.None? {
            RefusedTag(token, completePage, table, stack, done, piece, after);
            return false;
          }
          AcceptedTag(stack, done, piece, after);
          done := Piece(done.items + piece.items, Sum(done.counts, piece.counts));
          cursor, stack, counts := end + 1, more, Sum(counts, tag.value);
      }
    }
    JoinedEmpty(done);
    return stack == [] && counts == Required(completePage);
  }

  /** An accepted tag joins what has been done. */
  lemma AcceptedTag(stack: seq<Str>, done: Piece, piece: Piece, after: Option<Piece>)
    requires Nest(done.items, []) == Some(stack)
    ensures Joined(done, Prepended(Some(piece), after))
         == Joined(Piece(done.items + piece.items, Sum(done.counts, piece.counts)), after)
    ensures Nest(done.items + piece.items, []) == Nest(piece.items, stack)
  {
    JoinedAssociates(done, piece, after);
    NestAppend(done.items, piece.items, []);
  }

  lemma JoinedNothing(page: Option<Piece>)
    ensures Joined(NOTHING, page) == page
  {
    if page.Some? {
      assert [] + page.value.items == page.value.items;
    }
  }

  lemma NothingJoined(piece: Piece)
    ensures Joined(piece, None) == None
  {
  }

  lemma JoinedEmpty(piece: Piece)
    ensures Joined(piece, Some(NOTHING)) == Some(piece)
  {
    assert piece.items + [] == piece.items;
  }

  /** A refused tag refuses the page. */
  lemma RefusedTag(
      token: Str, completePage: bool, table: AttributeTable, stack: seq<Str>, done: Piece, piece: Piece, after: Option<Piece>)
    requires Nest(done.items, []) == Some(stack)
    requires || ReadToken(token, completePage, table).None?
             || (ReadToken(token, completePage, table) == Some(piece) && Nest(piece.items, stack).None?)
    ensures var read := ReadToken(token, completePage, table);
            var page := Joined(done, Prepended(read, after));
            page.None? || Nest(page.value.items, []).None?
  {
    hide ReadToken;
    if ReadToken(token, completePage, table).Some? && after.Some? {
      var items := piece.items + after.value.items;
      NestAppend(piece.items, after.value.items, stack);
      NestAppend(done.items, items, []);
    }
  }
}
