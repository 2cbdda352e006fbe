/** The command palette: `crates/rutile-app/src/command_palette.rs`. */
module CommandPalette {
  import opened Prelude
  import Sorting

  const MAX_PALETTE_RESULTS: nat := 50

  type I32 = n: int | -0x8000_0000 <= n <= 0x7FFF_FFFF

  /** Better matches first. */
  datatype MatchRank = ExactId | TitlePrefix | WordPrefix | Substring

  datatype Command = Command(id: string, title: string, category: nat, shortcut: Option<string>)

  datatype Candidate = Candidate(command: Command, rank: MatchRank)

  // ----- Matching -----------------------------------------------------------------------------

  /** Unicode `White_Space`. */
  predicate IsWhitespace(c: char) {
    var n := c as int;
    9 <= n <= 13 || n == 0x20 || n == 0x85 || n == 0xA0 || n == 0x1680 || 0x2000 <= n <= 0x200A
    || n == 0x2028 || n == 0x2029 || n == 0x202F || n == 0x205F || n == 0x3000
  }

  function TrimStart(s: string): (r: string)
    ensures |r| <= |s| && r == s[|s| - |r|..]
    ensures r != [] ==> !IsWhitespace(r[0])
    ensures forall k :: 0 <= k < |s| - |r| ==> IsWhitespace(s[k])
  {
    if s != [] && IsWhitespace(s[0]) then TrimStart(s[1..]) else s
  }

  function TrimEnd(s: string): (r: string)
    ensures |r| <= |s| && r == s[..|r|]
    ensures r != [] ==> !IsWhitespace(r[|r| - 1])
    ensures forall k :: |r| <= k < |s| ==> IsWhitespace(s[k])
  {
    if s != [] && IsWhitespace(s[|s| - 1]) then TrimEnd(s[..|s| - 1]) else s
  }

  function ToLowerChar(c: char): char {
    if 'A' <= c <= 'Z' then c - 'A' + 'a' else c
  }

  function ToLower(s: string): (r: string)
    ensures |r| == |s|
  {
    seq(|s|, i requires 0 <= i < |s| => ToLowerChar(s[i]))
  }

  predicate StartsWith(s: string, prefix: string) {
    |prefix| <= |s| && s[..|prefix|] == prefix
  }

  predicate Contains(s: string, needle: string) {
    exists i :: 0 <= i <= |s| && StartsWith(s[i..], needle)
  }

  function WordEnd(s: string): (e: nat)
    ensures e <= |s| && (e < |s| ==> IsWhitespace(s[e]))
    ensures forall k :: 0 <= k < e ==> !IsWhitespace(s[k])
  {
    if s == [] || IsWhitespace(s[0]) then 0 else 1 + WordEnd(s[1..])
  }

  /** `split(char::is_whitespace)`. */
  function Words(s: string): seq<string> {
    var e := WordEnd(s);
    if e == |s| then [s] else [s[..e]] + Words(s[e + 1..])
  }

  /** `word_prefix_match`. */
  predicate WordPrefixMatch(title: string, q: string) {
    exists word :: word in Words(title) && word != [] && StartsWith(word, q)
  }

  /** A position where a word may begin. */
  predicate IsWordStart(title: string, i: nat) {
    i == 0 || (i <= |title| && IsWhitespace(title[i - 1]))
  }

  predicate OccursAtWordStart(title: string, q: string) {
    exists i :: 0 <= i <= |title| && IsWordStart(title, i) && StartsWith(title[i..], q)
  }

  predicate HasWhitespace(s: string) {
    exists k :: 0 <= k < |s| && IsWhitespace(s[k])
  }

  lemma WordStartsAtStart(title: string, q: string)
    requires q != [] && WordEnd(title) > 0
    ensures StartsWith(title[..WordEnd(title)], q) <==> StartsWith(title, q) && !HasWhitespace(q)
  {
    var e := WordEnd(title);
    if StartsWith(title, q) && |q| > e {
      assert q[e] == title[..|q|][e];
      assert IsWhitespace(q[e]);
    }
    if |q| <= e {
      assert title[..e][..|q|] == title[..|q|];
    }
    if StartsWith(title[..e], q) {
      forall k | 0 <= k < |q| ensures !IsWhitespace(q[k]) {
        assert q[k] == title[..e][..|q|][k];
      }
    }
  }

  /** A word start after the first word is a word start of the rest. */
  lemma StartInRest(title: string, i: nat, e: nat)
    requires e == WordEnd(title) < |title| && 0 < i <= |title| && IsWordStart(title, i)
    ensures i > e && IsWordStart(title[e + 1..], i - e - 1) && title[i..] == title[e + 1..][i - e - 1..]
  {
    var rest := title[e + 1..];
    assert i - e - 1 > 0 ==> rest[i - e - 2] == title[i - 1];
  }

  lemma StartOfRest(title: string, j: nat, e: nat)
    requires e == WordEnd(title) < |title| && j <= |title| - e - 1 && IsWordStart(title[e + 1..], j)
    ensures IsWordStart(title, e + 1 + j) && title[e + 1 + j..] == title[e + 1..][j..]
  {
    var rest := title[e + 1..];
    assert j > 0 ==> rest[j - 1] == title[e + j];
  }

  lemma WordStartsShift(title: string, q: string, e: nat)
    requires e == WordEnd(title) < |title|
    ensures OccursAtWordStart(title, q) <==> StartsWith(title, q) || OccursAtWordStart(title[e + 1..], q)
  {
    var rest := title[e + 1..];
    if OccursAtWordStart(title, q) {
      var i :| 0 <= i <= |title| && IsWordStart(title, i) && StartsWith(title[i..], q);
      if i > 0 {
        StartInRest(title, i, e);
        hide IsWordStart, StartsWith;
        assert IsWordStart(rest, i - e - 1) && StartsWith(rest[i - e - 1..], q);
      } else {
        assert title[0..] == title;
      }
    }
    if OccursAtWordStart(rest, q) {
      var j :| 0 <= j <= |rest| && IsWordStart(rest, j) && StartsWith(rest[j..], q);
      StartOfRest(title, j, e);
    }
    if StartsWith(title, q) {
      assert title[0..] == title;
      assert IsWordStart(title, 0);
    }
  }

  /** A word prefix is the query at the start of a word; a query with a blank inside never is one. */
  lemma {:induction false} WordPrefixIsPositional(title: string, q: string)
    requires q != []
    ensures WordPrefixMatch(title, q) <==> OccursAtWordStart(title, q) && !HasWhitespace(q)
    decreases |title|
  {
    var e := WordEnd(title);
    if e == |title| {
      OneWord(title, q);
    } else {
      var rest := title[e + 1..];
      WordPrefixIsPositional(rest, q);
      assert WordPrefixMatch(title, q) <==>
        (title[..e] != [] && StartsWith(title[..e], q)) || WordPrefixMatch(rest, q);
      if e > 0 {
        WordStartsAtStart(title, q);
      } else if !HasWhitespace(q) {
        assert StartsWith(title, q) ==> title[..|q|][0] == q[0];
      }
      if !HasWhitespace(q) {
        WordStartsShift(title, q, e);
      }
    }
  }

  lemma OneWord(title: string, q: string)
    requires q != [] && WordEnd(title) == |title|
    ensures WordPrefixMatch(title, q) <==> OccursAtWordStart(title, q) && !HasWhitespace(q)
  {
    assert Words(title) == [title];
    assert title[0..] == title && title[..|title|] == title;
    if title != [] {
      WordStartsAtStart(title, q);
    }
    assert OccursAtWordStart(title, q) <==> StartsWith(title, q) by {
      assert IsWordStart(title, 0);
    }
  }

  // ----- Ranking ----------------------------------------------------------------------------------

  /** `rank_command`. */
  function RankCommand(command: Command, q: string): Option<MatchRank> {
    var (id, title) := (ToLower(command.id), ToLower(command.title));
    if q == [] then Some(Substring)
    else if id == q then Some(ExactId)
    else if StartsWith(title, q) then Some(TitlePrefix)
    else if WordPrefixMatch(title, q) then Some(WordPrefix)
    else if Contains(title, q) || Contains(id, q) then Some(Substring)
    else None
  }

  /** `needle` is written at `i`. */
  ghost predicate IsWrittenAt(s: string, needle: string, i: int) {
    0 <= i && i + |needle| <= |s| && s[i..i + |needle|] == needle
  }

  lemma ContainsIsWritten(s: string, needle: string)
    ensures Contains(s, needle) <==> exists i :: IsWrittenAt(s, needle, i)
  {
    if i :| 0 <= i <= |s| && StartsWith(s[i..], needle) {
      assert s[i..][..|needle|] == s[i..i + |needle|];
      assert IsWrittenAt(s, needle, i);
    }
    if i :| IsWrittenAt(s, needle, i) {
      assert s[i..][..|needle|] == s[i..i + |needle|];
    }
  }

  /** Where a query that is not empty stands in a command gives its rank: it is the whole identifier; or
      else it begins the title; or else, without a blank, it begins a later word of it; or else it stands
      somewhere in the title or the identifier. Otherwise there is no match. */
  lemma RankIsExact(command: Command, q: string)
    requires q != []
    ensures var (id, title, rank) := (ToLower(command.id), ToLower(command.title), RankCommand(command, q));
            && (rank == Some(ExactId) <==> id == q)
            && (rank == Some(TitlePrefix) <==> id != q && q <= title)
            && (rank == Some(WordPrefix) <==>
                  && id != q && !(q <= title) && !HasWhitespace(q)
                  && exists i :: IsWrittenAt(title, q, i) && i > 0 && IsWhitespace(title[i - 1]))
            && (rank != None <==>
                  id == q || (exists i :: IsWrittenAt(title, q, i)) || exists i :: IsWrittenAt(id, q, i))
  {
    var (id, title) := (ToLower(command.id), ToLower(command.title));
    WordPrefixIsPositional(title, q);
    StartsAreWritten(title, q);
    ContainsIsWritten(title, q);
    ContainsIsWritten(id, q);
    hide Contains, WordPrefixMatch, OccursAtWordStart, HasWhitespace, ToLower;
    if WordPrefixMatch(title, q) || StartsWith(title, q) {
      assert exists i :: IsWrittenAt(title, q, i) by { assert StartsWith(title, q) ==> IsWrittenAt(title, q, 0); }
    }
  }

  /** An occurrence at a word start begins the title or follows a blank. */
  lemma StartsAreWritten(title: string, q: string)
    ensures OccursAtWordStart(title, q) <==>
              q <= title || exists i :: IsWrittenAt(title, q, i) && i > 0 && IsWhitespace(title[i - 1])
  {
    if i :| 0 <= i <= |title| && IsWordStart(title, i) && StartsWith(title[i..], q) {
      assert title[i..][..|q|] == title[i..i + |q|];
      assert IsWrittenAt(title, q, i);
    }
    if q <= title {
      assert title[0..] == title && IsWordStart(title, 0);
    }
    if i :| IsWrittenAt(title, q, i) && i > 0 && IsWhitespace(title[i - 1]) {
      assert title[i..][..|q|] == title[i..i + |q|];
      assert IsWordStart(title, i);
    }
  }

  function Ordinal(rank: MatchRank): nat {
    match rank
    case ExactId => 0
    case TitlePrefix => 1
    case WordPrefix => 2
    case Substring => 3
  }

  function CandidateOrdinal(): Candidate -> nat {
    (candidate: Candidate) => Ordinal(candidate.rank)
  }

  /** The commands of one rank, in registry order. */
  function Bucket(registry: seq<Command>, q: string, rank: MatchRank): seq<Candidate> {
    if registry == [] then []
    else
      (if RankCommand(registry[0], q) == Some(rank) then [Candidate(registry[0], rank)] else [])
      + Bucket(registry[1..], q, rank)
  }

  /** Best rank first, each rank in registry order. */
  function Buckets(registry: seq<Command>, q: string): seq<Candidate> {
    Bucket(registry, q, ExactId) + Bucket(registry, q, TitlePrefix) + Bucket(registry, q, WordPrefix)
    + Bucket(registry, q, Substring)
  }

  function FirstRows(rows: seq<Candidate>): seq<Candidate> {
    rows[..Min(|rows|, MAX_PALETTE_RESULTS)]
  }

  lemma FewRows(rows: seq<Candidate>)
    ensures |FirstRows(rows)| <= MAX_PALETTE_RESULTS
  {
  }

  /** All matching commands, in registry order. */
  function Matching(registry: seq<Command>, q: string): seq<Candidate> {
    if registry == [] then []
    else
      var rank := RankCommand(registry[0], q);
      (if rank.Some? then [Candidate(registry[0], rank.value)] else []) + Matching(registry[1..], q)
  }

  lemma {:induction false} TierIsBucket(registry: seq<Command>, q: string, rank: MatchRank)
    ensures Sorting.Tier(Matching(registry, q), CandidateOrdinal(), Ordinal(rank)) == Bucket(registry, q, rank)
  {
    hide RankCommand;
    if registry != [] {
      TierIsBucket(registry[1..], q, rank);
      var rest := Matching(registry[1..], q);
      if RankCommand(registry[0], q).Some? {
        var candidate := Candidate(registry[0], RankCommand(registry[0], q).value);
        assert Matching(registry, q) == [candidate] + rest && ([candidate] + rest)[1..] == rest;
      } else {
        assert Matching(registry, q) == rest;
      }
    }
  }

  /** Sorting the matches stably by rank is laying out the buckets. */
  lemma SortIsBuckets(registry: seq<Command>, q: string)
    ensures Sorting.Sort(Matching(registry, q), Sorting.ByRank(CandidateOrdinal())) == Buckets(registry, q)
  {
    var (all, rank) := (Matching(registry, q), CandidateOrdinal());
    Sorting.SortIsTiers(all, rank, 4);
    TierIsBucket(registry, q, ExactId);
    TierIsBucket(registry, q, TitlePrefix);
    TierIsBucket(registry, q, WordPrefix);
    TierIsBucket(registry, q, Substring);
    hide Bucket, Matching, Sorting.Sort, CandidateOrdinal;
    FourTiers(all, rank);
  }

  lemma FourTiers<T(!new)>(s: seq<T>, rank: T -> nat)
    ensures Sorting.Tiers(s, rank, 0, 4)
         == Sorting.Tier(s, rank, 0) + Sorting.Tier(s, rank, 1) + Sorting.Tier(s, rank, 2) + Sorting.Tier(s, rank, 3)
  {
    hide Sorting.Tier;
    var (t0, t1, t2, t3) := (Sorting.Tier(s, rank, 0), Sorting.Tier(s, rank, 1), Sorting.Tier(s, rank, 2), Sorting.Tier(s, rank, 3));
    assert Sorting.Tiers(s, rank, 3, 4) == t3 by {
      assert Sorting.Tiers(s, rank, 4, 4) == [];
    }
    assert Sorting.Tiers(s, rank, 2, 4) == t2 + t3;
    assert Sorting.Tiers(s, rank, 1, 4) == t1 + (t2 + t3);
    assert t0 + (t1 + (t2 + t3)) == t0 + t1 + t2 + t3;
  }

  // ----- The palette --------------------------------------------------------------------------------

  datatype View = View(open: bool, query: string, candidates: seq<Candidate>, selected: nat)

  function Clamp(n: int, low: int, high: int): int {
    if n < low then low else if n > high then high else n
  }

  datatype Operation = OpenIt | CloseIt | SetQuery(query: string, registry: seq<Command>) | Move(delta: I32)

  const CLOSED := View(false, "", [], 0)

  function NeedleOf(query: string): string {
    ToLower(TrimStart(TrimEnd(query)))
  }

  function After(view: View, operation: Operation): View {
    match operation
    case OpenIt => View(true, "", [], 0)
    case CloseIt => CLOSED
    case SetQuery(query, registry) =>
      view.(query := query, candidates := FirstRows(Buckets(registry, NeedleOf(query))), selected := 0)
    case Move(delta) =>
      if view.candidates == [] then view
      else view.(selected := Clamp(view.selected + delta, 0, |view.candidates| - 1))
  }

  /** The selection is in range, or there is nothing to select and it is zero. */
  predicate IsValid(view: View) {
    && |view.candidates| <= MAX_PALETTE_RESULTS
    && (if view.candidates == [] then view.selected == 0 else view.selected < |view.candidates|)
  }

  lemma NextMatch(registry: seq<Command>, q: string, k: nat)
    requires k < |registry|
    ensures var rank := RankCommand(registry[k], q);
            (Matching(registry[k..], q)
             == (if rank.Some? then [Candidate(registry[k], rank.value)] else []) + Matching(registry[k + 1..], q))
  {
    hide RankCommand;
    assert registry[k..][0] == registry[k] && registry[k..][1..] == registry[k + 1..];
  }

  lemma NoMatches(q: string)
    ensures Matching([], q) == []
  {
  }

  /** The `filter_map` of `set_query`. */
  method CollectMatches(registry: seq<Command>, q: string) returns (ranked: seq<Candidate>)
    ensures ranked == Matching(registry, q)
  {
    hide *;
    ranked := [];
    assert registry[0..] == registry && registry[|registry|..] == [];
    NoMatches(q);
    for k := 0 to |registry|
      invariant ranked + Matching(registry[k..], q) == Matching(registry, q)
    {
      NextMatch(registry, q, k);
      var rank := RankCommand(registry[k], q);
      if rank.Some? {
        ranked := ranked + [Candidate(registry[k], rank.value)];
      }
    }
  }

  /** The rest of `set_query`: sort stably by rank, truncate. */
  method RankedRows(text: string, registry: seq<Command>) returns (rows: seq<Candidate>)
    ensures rows == FirstRows(Buckets(registry, NeedleOf(text))) && |rows| <= MAX_PALETTE_RESULTS
  {
    hide *;
    var q := NeedleOf(text);
    var ranked := CollectMatches(registry, q);
    SortIsBuckets(registry, q);
    FewRows(Buckets(registry, q));
    ranked := Sorting.Sort(ranked, Sorting.ByRank(CandidateOrdinal()));
    rows := FirstRows(ranked);
  }

  class CommandPalette {
    var open: bool
    var query: string
    var candidates: seq<Candidate>
    var selected: nat

    ghost predicate Valid()
      reads this
    {
      IsValid(Shown())
    }

    function Shown(): View
      reads this
    {
      View(open, query, candidates, selected)
    }

    constructor ()
      ensures Valid() && Shown() == CLOSED
    {
      open, query, candidates, selected := false, "", [], 0;
    }

    method Open()
      modifies this
      ensures Valid() && Shown() == After(old(Shown()), OpenIt)
    {
      open, query, candidates, selected := true, "", [], 0;
    }

    method Close()
      modifies this
      ensures Valid() && Shown() == After(old(Shown()), CloseIt)
    {
      open, query, candidates, selected := false, "", [], 0;
    }

    /** `set_query`: collect, sort stably, truncate. */
    method SetQuery(text: string, registry: seq<Command>)
      modifies this
      ensures Valid() && Shown() == After(old(Shown()), Operation.SetQuery(text, registry))
    {
      var rows := RankedRows(text, registry);
      hide FirstRows, Buckets, NeedleOf;
      query, candidates, selected := text, rows, 0;
    }

    /** `move_selection`, in saturating 32-bit arithmetic: the clamp hides the saturation. */
    method MoveSelection(delta: I32) returns (changed: bool)
      requires Valid()
      modifies this`selected
      ensures Valid() && Shown() == After(old(Shown()), Move(delta))
      ensures changed <==> selected != old(selected)
    {
      if candidates == [] {
        return false;
      }
      var last := |candidates| - 1;
      var target := Clamp(Clamp(selected + delta, -0x8000_0000, 0x7FFF_FFFF), 0, last);
      if target == selected {
        return false;
      }
      selected := target;
      return true;
    }
  }

  // ----- Results -----------------------------------------------------------------------------------

  function AfterAll(view: View, operations: seq<Operation>): View {
    if operations == [] then view
    else After(AfterAll(view, operations[..|operations| - 1]), operations[|operations| - 1])
  }

  lemma NothingIsValid()
    ensures IsValid(CLOSED)
  {
  }

  lemma OperationKeepsRange(view: View, operation: Operation)
    requires IsValid(view)
    ensures IsValid(After(view, operation))
  {
    hide Buckets, NeedleOf;
  }

  /** Over any sequence of operations the selection stays in range. */
  lemma {:induction false} SelectionStaysInRange(operations: seq<Operation>)
    ensures IsValid(AfterAll(CLOSED, operations))
  {
    hide After, IsValid;
    if operations == [] {
      assert IsValid(CLOSED) by { NothingIsValid(); }
    } else {
      var front := operations[..|operations| - 1];
      SelectionStaysInRange(front);
      OperationKeepsRange(AfterAll(CLOSED, front), operations[|operations| - 1]);
    }
  }

  lemma {:induction false} MatchingIsRanked(registry: seq<Command>, q: string, k: nat)
    requires k < |Matching(registry, q)|
    ensures var row := Matching(registry, q)[k];
            row.command in registry && RankCommand(row.command, q) == Some(row.rank)
  {
    hide RankCommand;
    if RankCommand(registry[0], q).None? {
      MatchingIsRanked(registry[1..], q, k);
    } else if k > 0 {
      MatchingIsRanked(registry[1..], q, k - 1);
    }
  }

  /** The rows shown are a prefix of all matches in best-first order: a row that is shown never ranks
      below one that was dropped. */
  lemma ShownRowsRankBest(registry: seq<Command>, q: string, i: nat, j: nat)
    requires i < |FirstRows(Buckets(registry, q))| <= j < |Buckets(registry, q)|
    ensures Ordinal(FirstRows(Buckets(registry, q))[i].rank) <= Ordinal(Buckets(registry, q)[j].rank)
    ensures multiset(Buckets(registry, q)) == multiset(Matching(registry, q))
  {
    var (all, less) := (Matching(registry, q), Sorting.ByRank(CandidateOrdinal()));
    SortIsBuckets(registry, q);
    Sorting.SortSorts(all, less);
    Sorting.SortPermutes(all, less);
    var rows := Buckets(registry, q);
    assert FirstRows(rows)[i] == rows[i];
    assert !less(rows[j], rows[i]);
  }

  /** `needle` is `query[lo..hi]` with its ASCII letters in lower case; only blanks stand around it, and none
      begins or ends it. */
  ghost predicate IsNeedle(query: string, needle: string, lo: int, hi: int) {
    && 0 <= lo <= hi <= |query| && |needle| == hi - lo
    && (forall k :: 0 <= k < lo || hi <= k < |query| ==> IsWhitespace(query[k]))
    && (lo < hi ==> !IsWhitespace(query[lo]) && !IsWhitespace(query[hi - 1]))
    && forall k :: lo <= k < hi ==>
         needle[k - lo] == if 'A' <= query[k] <= 'Z' then query[k] - 'A' + 'a' else query[k]
  }

  lemma NeedleIsTrimmed(query: string)
    ensures exists lo, hi :: IsNeedle(query, NeedleOf(query), lo, hi)
  {
    hide TrimStart, TrimEnd, IsWhitespace;
    var front := TrimEnd(query);
    var core := TrimStart(front);
    var (lo, hi) := (|front| - |core|, |front|);
    assert core == query[lo..hi];
    LoweredIsNeedle(query, lo, hi);
    assert NeedleOf(query) == ToLower(query[lo..hi]);
  }

  lemma LoweredIsNeedle(query: string, lo: nat, hi: nat)
    requires lo <= hi <= |query|
    requires forall k :: 0 <= k < lo || hi <= k < |query| ==> IsWhitespace(query[k])
    requires lo < hi ==> !IsWhitespace(query[lo]) && !IsWhitespace(query[hi - 1])
    ensures IsNeedle(query, ToLower(query[lo..hi]), lo, hi)
  {
    hide IsWhitespace;
  }

  /** As many rows are shown as match, up to fifty. */
  lemma RowsAreBounded(view: View, registry: seq<Command>, query: string)
    ensures var (rows, matches) := (After(view, SetQuery(query, registry)).candidates, |Matching(registry, NeedleOf(query))|);
            |rows| == if matches <= 50 then matches else 50
  {
    var q := NeedleOf(query);
    SortIsBuckets(registry, q);
    Sorting.SortPermutes(Matching(registry, q), Sorting.ByRank(CandidateOrdinal()));
    hide NeedleOf, Buckets, Matching, Sorting.Sort;
    assert |multiset(Buckets(registry, q))| == |multiset(Matching(registry, q))|;
  }

  /** Moving the selection goes as far as there are rows, and changes nothing else. */
  lemma MoveGoesAsFarAsItCan(view: View, delta: I32)
    requires IsValid(view)
    ensures var (n, moved) := (|view.candidates|, After(view, Move(delta)));
            && moved == view.(selected := moved.selected)
            && (n == 0 ==> moved.selected == 0)
            && (n > 0 && view.selected + delta < 0 ==> moved.selected == 0)
            && (n > 0 && 0 <= view.selected + delta < n ==> moved.selected == view.selected + delta)
            && (n > 0 && view.selected + delta >= n ==> moved.selected == n - 1)
  {
    hide Buckets, NeedleOf, FirstRows;
  }

  /** An empty query shows the first commands of the registry, in its order. */
  lemma EmptyQueryShowsRegistry(registry: seq<Command>)
    ensures Buckets(registry, "") == seq(|registry|, k requires 0 <= k < |registry| => Candidate(registry[k], Substring))
  {
    AllAreSubstrings(registry);
  }

  lemma {:induction false} AllAreSubstrings(registry: seq<Command>)
    ensures Bucket(registry, "", ExactId) == Bucket(registry, "", TitlePrefix) == Bucket(registry, "", WordPrefix) == []
    ensures Bucket(registry, "", Substring)
         == seq(|registry|, k requires 0 <= k < |registry| => Candidate(registry[k], Substring))
  {
    if registry != [] {
      AllAreSubstrings(registry[1..]);
    }
  }
}
