/**
 * The errors reference page: a fixed database of error entries, a search box that filters it
 * case-insensitively on an entry's error text, meaning and causes, and a single-open list in
 * which clicking an entry shows its causes, solution and example.
 */
module ErrorSearch {

  import opened Wrappers
  import opened Text
  import Disclosure

  /** One record of the error database. `solution` and `example` are only ever displayed. */
  datatype ErrorEntry = ErrorEntry(
    error: string,
    meaning: string,
    causes: seq<string>,
    solution: string,
    example: Option<string>)

  /** `causes.some((c) => c.toLowerCase().includes(term))`. */
  function SomeCauseIncludes(causes: seq<string>, term: string): (b: bool)
    ensures b <==> exists i :: 0 <= i < |causes| && Includes(Lower(causes[i]), term)
    decreases |causes|
  {
    if causes == [] then false
    else Includes(Lower(causes[0]), term) || SomeCauseIncludes(causes[1..], term)
  }

  /** Character `c` occurs in the lower-cased error, meaning or some cause of `e`. */
  predicate InSearchedText(e: ErrorEntry, c: char) {
    || c in Lower(e.error)
    || c in Lower(e.meaning)
    || exists i :: 0 <= i < |e.causes| && c in Lower(e.causes[i])
  }

  /** The filter's test of one entry against an already lower-cased term. */
  function Matches(e: ErrorEntry, term: string): (b: bool)
    ensures term == "" ==> b
    ensures b ==> forall j :: 0 <= j < |term| ==> InSearchedText(e, term[j])
  {
    var b := || Includes(Lower(e.error), term)
             || Includes(Lower(e.meaning), term)
             || SomeCauseIncludes(e.causes, term);
    assert term == "" ==> StartsWith(Lower(e.error), term);
    assert b ==> forall j :: 0 <= j < |term| ==> InSearchedText(e, term[j]) by {
      forall j | 0 <= j < |term|
        ensures b ==> InSearchedText(e, term[j])
      {
        CharOfIncluded(Lower(e.error), term, j);
        CharOfIncluded(Lower(e.meaning), term, j);
        if SomeCauseIncludes(e.causes, term) {
          var i :| 0 <= i < |e.causes| && Includes(Lower(e.causes[i]), term);
          CharOfIncluded(Lower(e.causes[i]), term, j);
        }
      }
    }
    b
  }

  /** Reference reading of a match: the term occurs in the lower-cased error, meaning or some cause. */
  ghost predicate Mentions(e: ErrorEntry, term: string) {
    || (exists i :: OccursAt(Lower(e.error), term, i))
    || (exists i :: OccursAt(Lower(e.meaning), term, i))
    || (exists c, i :: c in e.causes && OccursAt(Lower(c), term, i))
  }

  /** The filter's test is exactly the reference reading. */
  lemma MatchesIff(e: ErrorEntry, term: string)
    ensures Matches(e, term) <==> Mentions(e, term)
  {
    IncludesIff(Lower(e.error), term);
    IncludesIff(Lower(e.meaning), term);
    forall c | c in e.causes
      ensures Includes(Lower(c), term) <==> exists i :: OccursAt(Lower(c), term, i)
    {
      IncludesIff(Lower(c), term);
    }
  }

  /** `Array.prototype.filter`: the entries the callback keeps, in their order. */
  function Select(db: seq<ErrorEntry>, keep: ErrorEntry -> bool): (r: seq<ErrorEntry>)
    ensures |r| <= |db|
    ensures forall e :: e in r ==> e in db && keep(e)
    decreases |db|
  {
    if db == [] then []
    else (if keep(db[0]) then [db[0]] else []) + Select(db[1..], keep)
  }

  /** The page's filter callback for an already lower-cased term. */
  function MatcherFor(term: string): ErrorEntry -> bool {
    e => Matches(e, term)
  }

  /** `filteredErrors`: the whole database for an empty search box, else the entries matching the lower-cased term. */
  function Filter(db: seq<ErrorEntry>, searchTerm: string): (r: seq<ErrorEntry>)
    ensures searchTerm == "" ==> r == db
    ensures |r| <= |db|
  {
    if searchTerm == "" then db else Select(db, MatcherFor(Lower(searchTerm)))
  }

  /** The positions `base + j` of the entries `db[j]` that the callback keeps, in increasing order. */
  function KeptPositions(db: seq<ErrorEntry>, keep: ErrorEntry -> bool, base: nat): seq<nat>
    decreases |db|
  {
    if db == [] then []
    else (if keep(db[0]) then [base] else []) + KeptPositions(db[1..], keep, base + 1)
  }

  /** The positions of the database that `Filter` keeps: all of them for an empty search box. */
  function FilteredPositions(db: seq<ErrorEntry>, searchTerm: string): seq<nat> {
    if searchTerm == "" then seq(|db|, j requires 0 <= j < |db| => j)
    else KeptPositions(db, MatcherFor(Lower(searchTerm)), 0)
  }

  predicate StrictlyIncreasing(p: seq<nat>) {
    forall k, l :: 0 <= k < l < |p| ==> p[k] < p[l]
  }

  /** There are as many kept positions as selected entries. */
  lemma {:induction false} KeptPositionsLength(db: seq<ErrorEntry>, keep: ErrorEntry -> bool, base: nat)
    ensures |KeptPositions(db, keep, base)| == |Select(db, keep)|
    decreases |db|
  {
    if db != [] {
      KeptPositionsLength(db[1..], keep, base + 1);
    }
  }

  /** The kept positions lie in `base .. base + |db| - 1` and increase. */
  lemma {:induction false} KeptPositionsIncrease(db: seq<ErrorEntry>, keep: ErrorEntry -> bool, base: nat)
    ensures var p := KeptPositions(db, keep, base);
      StrictlyIncreasing(p) && forall k :: 0 <= k < |p| ==> base <= p[k] < base + |db|
    decreases |db|
  {
    if db != [] {
      KeptPositionsIncrease(db[1..], keep, base + 1);
    }
  }

  /** A position is listed exactly when the callback keeps the entry there. */
  lemma {:induction false} KeptPositionsExact(db: seq<ErrorEntry>, keep: ErrorEntry -> bool, base: nat)
    ensures var p := KeptPositions(db, keep, base);
      forall j :: 0 <= j < |db| ==> (base + j in p <==> keep(db[j]))
    decreases |db|
  {
    if db != [] {
      KeptPositionsExact(db[1..], keep, base + 1);
      KeptPositionsIncrease(db[1..], keep, base + 1);
      var p := KeptPositions(db, keep, base);
      forall j | 0 < j < |db|
        ensures base + j in p <==> keep(db[j])
      {
        assert db[1..][j - 1] == db[j];
      }
    }
  }

  /** The k-th selected entry is the entry at the k-th kept position. */
  lemma {:induction false} SelectAtKeptPositions(db: seq<ErrorEntry>, keep: ErrorEntry -> bool, base: nat)
    ensures var r, p := Select(db, keep), KeptPositions(db, keep, base);
      |p| == |r| && forall k :: 0 <= k < |p| ==> base <= p[k] < base + |db| && r[k] == db[p[k] - base]
    decreases |db|
  {
    if db != [] {
      var r', p' := Select(db[1..], keep), KeptPositions(db[1..], keep, base + 1);
      assert |p'| == |r'| && forall k :: 0 <= k < |p'| ==>
        base + 1 <= p'[k] < base + 1 + |db[1..]| && r'[k] == db[1..][p'[k] - (base + 1)] by {
        SelectAtKeptPositions(db[1..], keep, base + 1);
      }
      var r, p := Select(db, keep), KeptPositions(db, keep, base);
      assert r == (if keep(db[0]) then [db[0]] else []) + r';
      assert p == (if keep(db[0]) then [base] else []) + p';
      PairedStep(db, base, r, p, r', p', keep(db[0]));
    }
  }

  /** One step of the induction: the head entry, if kept, goes in front paired with position `base`. */
  lemma PairedStep(db: seq<ErrorEntry>, base: nat, r: seq<ErrorEntry>, p: seq<nat>,
                   r': seq<ErrorEntry>, p': seq<nat>, kept: bool)
    requires db != [] && |p'| == |r'|
    requires forall k :: 0 <= k < |p'| ==>
      base + 1 <= p'[k] < base + 1 + |db[1..]| && r'[k] == db[1..][p'[k] - (base + 1)]
    requires r == (if kept then [db[0]] else []) + r'
    requires p == (if kept then [base] else []) + p'
    ensures |p| == |r| && forall k :: 0 <= k < |p| ==> base <= p[k] < base + |db| && r[k] == db[p[k] - base]
  {
    ShiftPositions(db, base, r', p');
    if kept {
      PrependPosition(db, base, r', p');
    } else {
      assert r == r' && p == p';
    }
  }

  /** Positions read from the tail `db[1..]` at offset `base + 1` read the same entries of `db` at offset `base`. */
  lemma ShiftPositions(db: seq<ErrorEntry>, base: nat, r: seq<ErrorEntry>, p: seq<nat>)
    requires db != [] && |p| == |r|
    requires forall k :: 0 <= k < |p| ==> base + 1 <= p[k] < base + |db| && r[k] == db[1..][p[k] - (base + 1)]
    ensures forall k :: 0 <= k < |p| ==> base + 1 <= p[k] < base + |db| && r[k] == db[p[k] - base]
  {
    forall k | 0 <= k < |p|
      ensures r[k] == db[p[k] - base]
    {
      assert db[1..][p[k] - (base + 1)] == db[p[k] - base];
    }
  }

  /** Putting the head entry and its position `base` in front keeps entries and positions paired. */
  lemma PrependPosition(db: seq<ErrorEntry>, base: nat, r: seq<ErrorEntry>, p: seq<nat>)
    requires db != [] && |p| == |r|
    requires forall k :: 0 <= k < |p| ==> base + 1 <= p[k] < base + |db| && r[k] == db[p[k] - base]
    ensures var r1, p1 := [db[0]] + r, [base] + p;
      forall k :: 0 <= k < |p1| ==> base <= p1[k] < base + |db| && r1[k] == db[p1[k] - base]
  {
    var r1, p1 := [db[0]] + r, [base] + p;
    forall k | 0 <= k < |p1|
      ensures base <= p1[k] < base + |db| && r1[k] == db[p1[k] - base]
    {
      if k > 0 {
        assert r1[k] == r[k - 1] && p1[k] == p[k - 1];
      }
    }
  }

  /** `Select` reads the database at the increasing positions whose entries the callback keeps. */
  lemma SelectIsOrderedSelection(db: seq<ErrorEntry>, keep: ErrorEntry -> bool)
    ensures var r, p := Select(db, keep), KeptPositions(db, keep, 0);
      && |p| == |r|
      && StrictlyIncreasing(p)
      && (forall k :: 0 <= k < |p| ==> p[k] < |db| && r[k] == db[p[k]])
      && (forall j :: 0 <= j < |db| ==> (j in p <==> keep(db[j])))
  {
    SelectAtPositionsFromZero(db, keep);
    IncreasingFromZero(db, keep);
    ExactFromZero(db, keep);
  }

  /** `SelectAtKeptPositions` for the whole database, whose positions start at 0. */
  lemma SelectAtPositionsFromZero(db: seq<ErrorEntry>, keep: ErrorEntry -> bool)
    ensures var r, p := Select(db, keep), KeptPositions(db, keep, 0);
      |p| == |r| && forall k :: 0 <= k < |p| ==> p[k] < |db| && r[k] == db[p[k]]
  {
    SelectAtKeptPositions(db, keep, 0);
  }

  /** `KeptPositionsIncrease` for the whole database. */
  lemma IncreasingFromZero(db: seq<ErrorEntry>, keep: ErrorEntry -> bool)
    ensures StrictlyIncreasing(KeptPositions(db, keep, 0))
  {
    KeptPositionsIncrease(db, keep, 0);
  }

  /** `KeptPositionsExact` for the whole database. */
  lemma ExactFromZero(db: seq<ErrorEntry>, keep: ErrorEntry -> bool)
    ensures forall j :: 0 <= j < |db| ==> (j in KeptPositions(db, keep, 0) <==> keep(db[j]))
  {
    var p := KeptPositions(db, keep, 0);
    forall j | 0 <= j < |db|
      ensures j in p <==> keep(db[j])
    {
      KeptPositionsExact(db, keep, 0);
      assert 0 + j in p <==> keep(db[j]);
    }
  }

  /** For the empty search box, every position is listed, in order. */
  lemma AllPositionsListed(db: seq<ErrorEntry>)
    ensures var p := FilteredPositions(db, "");
      && |p| == |db|
      && StrictlyIncreasing(p)
      && (forall k :: 0 <= k < |p| ==> p[k] == k)
      && (forall j :: 0 <= j < |db| ==> j in p)
  {
    var p := FilteredPositions(db, "");
    forall j | 0 <= j < |db|
      ensures j in p
    {
      assert p[j] == j;
    }
  }

  /**
   * The filter's result is the database read at the kept positions, which increase (order is
   * kept, nothing is repeated or invented) and are exactly the positions whose entry matches.
   */
  lemma FilterIsOrderedSelection(db: seq<ErrorEntry>, searchTerm: string)
    ensures var r, p := Filter(db, searchTerm), FilteredPositions(db, searchTerm);
      && |p| == |r|
      && StrictlyIncreasing(p)
      && (forall k :: 0 <= k < |p| ==> p[k] < |db| && r[k] == db[p[k]])
      && (forall j :: 0 <= j < |db| ==> (j in p <==> searchTerm == "" || Matches(db[j], Lower(searchTerm))))
  {
    if searchTerm != "" {
      SelectIsOrderedSelection(db, MatcherFor(Lower(searchTerm)));
    } else {
      AllPositionsListed(db);
    }
  }

  /** For a non-empty search box an entry is listed iff it is in the database and mentions the lower-cased term. */
  lemma FilterMembership(db: seq<ErrorEntry>, searchTerm: string, e: ErrorEntry)
    requires searchTerm != ""
    ensures e in Filter(db, searchTerm) <==> e in db && Mentions(e, Lower(searchTerm))
  {
    var term := Lower(searchTerm);
    var keep := MatcherFor(term);
    MatchesIff(e, term);
    if e in db && Matches(e, term) {
      var j :| 0 <= j < |db| && db[j] == e;
      SelectAtKeptPositions(db, keep, 0);
      KeptPositionsExact(db, keep, 0);
      var p := KeptPositions(db, keep, 0);
      assert 0 + j in p;
      var k :| 0 <= k < |p| && p[k] == j;
      assert Select(db, keep)[k] == e;
    }
  }

  /** A list whose every entry the callback keeps passes the filter unchanged. */
  lemma {:induction false} SelectAllKept(xs: seq<ErrorEntry>, keep: ErrorEntry -> bool)
    requires forall e :: e in xs ==> keep(e)
    ensures Select(xs, keep) == xs
    decreases |xs|
  {
    if xs != [] {
      assert xs[0] in xs;
      assert forall e :: e in xs[1..] ==> e in xs;
      SelectAllKept(xs[1..], keep);
      assert [xs[0]] + xs[1..] == xs;
    }
  }

  /** A list none of whose entries the callback keeps filters to nothing. */
  lemma {:induction false} SelectNoneKept(xs: seq<ErrorEntry>, keep: ErrorEntry -> bool)
    requires forall e :: e in xs ==> !keep(e)
    ensures Select(xs, keep) == []
    decreases |xs|
  {
    if xs != [] {
      assert xs[0] in xs;
      assert forall e :: e in xs[1..] ==> e in xs;
      SelectNoneKept(xs[1..], keep);
    }
  }

  /** Filtering what a callback already selected keeps all of it. */
  lemma SelectIdempotent(db: seq<ErrorEntry>, keep: ErrorEntry -> bool)
    ensures Select(Select(db, keep), keep) == Select(db, keep)
  {
    SelectAllKept(Select(db, keep), keep);
  }

  /** Searching the result again with the same term changes nothing. */
  lemma FilterIdempotent(db: seq<ErrorEntry>, searchTerm: string)
    ensures Filter(Filter(db, searchTerm), searchTerm) == Filter(db, searchTerm)
  {
    if searchTerm != "" {
      SelectIdempotent(db, MatcherFor(Lower(searchTerm)));
    }
  }

  /** Terms with the same lower-case form give the same result. */
  lemma FilterIgnoresCase(db: seq<ErrorEntry>, q1: string, q2: string)
    requires Lower(q1) == Lower(q2)
    ensures Filter(db, q1) == Filter(db, q2)
  {
    assert |q1| == |Lower(q1)| == |Lower(q2)| == |q2|;
  }

  /** Searching for a term gives what searching for its lower-case form gives. */
  lemma FilterOfLowered(db: seq<ErrorEntry>, searchTerm: string)
    ensures Filter(db, searchTerm) == Filter(db, Lower(searchTerm))
  {
    LowerIdempotent(searchTerm);
    FilterIgnoresCase(db, searchTerm, Lower(searchTerm));
  }

  /** Two entries that agree on error, meaning and causes. */
  predicate SameSearchable(e: ErrorEntry, f: ErrorEntry) {
    e.error == f.error && e.meaning == f.meaning && e.causes == f.causes
  }

  /** Callbacks that agree on every entry of `db` keep the same positions. */
  lemma {:induction false} KeptPositionsAgree(db: seq<ErrorEntry>, db': seq<ErrorEntry>, keep: ErrorEntry -> bool, base: nat)
    requires |db| == |db'|
    requires forall j :: 0 <= j < |db| ==> keep(db[j]) == keep(db'[j])
    ensures KeptPositions(db, keep, base) == KeptPositions(db', keep, base)
    decreases |db|
  {
    if db != [] {
      assert keep(db[0]) == keep(db'[0]);
      forall j | 0 <= j < |db| - 1 ensures keep(db[1..][j]) == keep(db'[1..][j]) {
        assert keep(db[j + 1]) == keep(db'[j + 1]);
      }
      KeptPositionsAgree(db[1..], db'[1..], keep, base + 1);
    }
  }

  /** Solutions and examples are never searched: databases that differ only there keep the same positions. */
  lemma FilterIgnoresDetail(db: seq<ErrorEntry>, db': seq<ErrorEntry>, searchTerm: string)
    requires |db| == |db'|
    requires forall j :: 0 <= j < |db| ==> SameSearchable(db[j], db'[j])
    ensures FilteredPositions(db, searchTerm) == FilteredPositions(db', searchTerm)
  {
    if searchTerm != "" {
      var keep := MatcherFor(Lower(searchTerm));
      forall j | 0 <= j < |db| ensures keep(db[j]) == keep(db'[j]) {
        assert SameSearchable(db[j], db'[j]);
      }
      KeptPositionsAgree(db, db', keep, 0);
    }
  }

  /** `error{filteredErrors.length !== 1 ? 's' : ''}`. */
  function CountNoun(n: nat): (r: string)
    ensures r == "error" <==> n == 1
    ensures r == "errors" <==> n != 1
  {
    "error" + (if n != 1 then "s" else "")
  }

  /** The line under the search box: absent while the box is empty, else `Found {n} error(s)`. */
  function Summary(searchTerm: string, found: nat): (r: Option<string>)
    ensures r.None? <==> searchTerm == ""
    ensures r.Some? ==> r.value == "Found " + Decimal(found) + " " + CountNoun(found)
  {
    if searchTerm == "" then None else Some("Found " + Decimal(found) + " " + CountNoun(found))
  }

  /** A rendered entry and whether its details (causes, solution, example) are shown. */
  datatype ErrorRow = ErrorRow(entry: ErrorEntry, expanded: bool)

  /** The rendered list: the no-results card, or one row per filtered entry. */
  datatype ErrorList = NoResults | Rows(rows: seq<ErrorRow>)

  /** `filteredErrors.length > 0 ? filteredErrors.map(...) : <Card>No errors found…</Card>`. */
  function RenderList(filtered: seq<ErrorEntry>, expanded: Option<nat>): (v: ErrorList)
    ensures v.NoResults? <==> filtered == []
    ensures v.Rows? ==> |v.rows| == |filtered|
    ensures v.Rows? ==> forall k :: 0 <= k < |filtered| ==>
      v.rows[k].entry == filtered[k] && (v.rows[k].expanded <==> Disclosure.IsOpen(expanded, k))
  {
    if filtered == [] then NoResults
    else Rows(seq(|filtered|, k requires 0 <= k < |filtered| => ErrorRow(filtered[k], expanded == Some(k))))
  }

  /** Under the page invariant, the expanded position is the one row showing details, and none shows when it is null. */
  lemma ExpandedRowIsShown(filtered: seq<ErrorEntry>, expanded: Option<nat>)
    requires filtered != []
    requires expanded.Some? ==> expanded.value < |filtered|
    ensures var rows := RenderList(filtered, expanded).rows;
      (set k | 0 <= k < |rows| && rows[k].expanded) == (if expanded.Some? then {expanded.value} else {})
  {
    var rows := RenderList(filtered, expanded).rows;
    var shown := set k | 0 <= k < |rows| && rows[k].expanded;
    if expanded.Some? {
      assert rows[expanded.value].expanded;
      assert expanded.value in shown;
    }
  }

  /** The page's state cells: `searchTerm` and `expandedError`, over the fixed database. */
  class ErrorsPage {
    const database: seq<ErrorEntry>
    var searchTerm: string
    var expandedError: Option<nat>

    /** `expandedError` is null or a position of the current result list. */
    ghost predicate Valid()
      reads this
    {
      && |database| > 0
      && (expandedError.Some? ==> expandedError.value < |Filter(database, searchTerm)|)
    }

    /** `useState('')` and `useState<number | null>(0)`: the full list, first entry expanded. */
    constructor(database: seq<ErrorEntry>)
      requires |database| > 0
      ensures Valid()
      ensures this.database == database && searchTerm == "" && expandedError == Some(0)
    {
      this.database := database;
      searchTerm := "";
      expandedError := Some(0);
    }

    /** The search box's `onChange`: store the new text and collapse every entry. */
    method OnSearchChange(value: string)
      requires Valid()
      modifies this
      ensures Valid()
      ensures searchTerm == value && expandedError == None
    {
      searchTerm := value;
      expandedError := None;
    }

    /** The click handler of the rendered entry at `index`. */
    method OnEntryClick(index: nat)
      requires Valid() && index < |Filter(database, searchTerm)|
      modifies this
      ensures Valid()
      ensures searchTerm == old(searchTerm)
      ensures expandedError == Disclosure.Toggle(old(expandedError), index)
    {
      expandedError := Disclosure.Toggle(expandedError, index);
    }

    /** What the page shows below the search box. */
    function View(): (v: (Option<string>, ErrorList))
      reads this
      ensures v.0.None? <==> searchTerm == ""
      ensures var n := |Filter(database, searchTerm)|;
        v.0.Some? ==> v.0.value == "Found " + Decimal(n) + " " + CountNoun(n)
      ensures v.1.NoResults? <==> Filter(database, searchTerm) == []
      ensures v.1.Rows? ==> |v.1.rows| == |Filter(database, searchTerm)|
    {
      var filtered := Filter(database, searchTerm);
      (Summary(searchTerm, |filtered|), RenderList(filtered, expandedError))
    }

    /** In a valid page, the entry `expandedError` names is the only one showing details, and none shows when it is null. */
    lemma OnlyExpandedEntryShown()
      requires Valid()
      ensures View().1.Rows? ==>
        var rows := View().1.rows;
        (set k | 0 <= k < |rows| && rows[k].expanded)
          == (if expandedError.Some? then {expandedError.value} else {})
    {
      var filtered := Filter(database, searchTerm);
      if filtered != [] {
        ExpandedRowIsShown(filtered, expandedError);
      }
    }
  }

  /** A lower-case character that no character of `e`'s texts lower-cases to is not in its searched text. */
  lemma NotInSearchedText(e: ErrorEntry, c: char)
    requires !IsUpper(c)
    requires forall k :: 0 <= k < |e.error| ==> LowerChar(e.error[k]) != c
    requires forall k :: 0 <= k < |e.meaning| ==> LowerChar(e.meaning[k]) != c
    requires forall i, k :: 0 <= i < |e.causes| && 0 <= k < |e.causes[i]| ==> LowerChar(e.causes[i][k]) != c
    ensures !InSearchedText(e, c)
  {
  }

  /**
   * Searching three entries of the database (abridged to their error text and one cause) for
   * "zzz" lists nothing, so the page shows the no-results card.
   */
  lemma SearchWithoutMatch(db: seq<ErrorEntry>, q: string)
    requires db == [
      ErrorEntry("command not found", "", ["Program not installed"], "", None),
      ErrorEntry("Permission denied", "", [], "", None),
      ErrorEntry("disk quota exceeded", "", [], "", None)]
    requires q == "zzz"
    ensures Filter(db, q) == []
    ensures RenderList(Filter(db, q), None) == NoResults
  {
    var term := Lower(q);
    assert term[0] == 'z';
    forall e | e in db
      ensures !InSearchedText(e, 'z')
    {
      NotInSearchedText(e, 'z');
    }
    assert forall e :: e in db ==> !Matches(e, term);
    SelectNoneKept(db, MatcherFor(term));
  }

}
