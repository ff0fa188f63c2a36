/** The reconciliation in scansort's `main`: from the sizes of the odd and the
    even scan batch and the set of pages deliberately not scanned, check that
    they describe one document numbered 1..all_n, then assign every scanned
    file (a batch directory and an index within it) the page number it gets
    in the reassembled document. */
module ScanSort {
  import opened PageRanges

  /** The two batch directories, `odd_dir` and `even_dir`. */
  datatype Side = OddSide | EvenSide

  /** One `src -> dst` line of the output: file `fidx` of directory `dir`
      becomes page `page` of the output directory. The file name formatter is
      injective on numbers, so files and pages stand for their names. */
  datatype Transfer = Transfer(dir: Side, fidx: nat, page: int)

  /** `ValueError('Page numbers do not correspond')` and the two `assert`s on
      the list lengths. */
  datatype Error = PagesDoNotCorrespond | EvenCountMismatch | OddCountMismatch

  datatype Result<T> = Ok(value: T) | Err(error: Error)

  /** The odd and the even members of `missing`. For the divisor 2, Python's
      `x % 2` and Dafny's agree, negative x included: 1 for odd x, 0 for even,
      so `sum(map(lambda x: x % 2, missing))` counts the odd members and
      `sum(map(lambda x: not x % 2, missing))` the even ones. */
  function OddMissing(missing: set<int>): set<int> {
    set x | x in missing && x % 2 == 1
  }

  function EvenMissing(missing: set<int>): set<int> {
    set x | x in missing && x % 2 == 0
  }

  /** `all_n`: the pages of the whole document, scanned or missing. */
  function AllCount(oddN: nat, evenN: nat, missing: set<int>): nat {
    oddN + evenN + |missing|
  }

  /** `odd_all_n`: the odd pages, scanned or missing. */
  function OddAllCount(oddN: nat, missing: set<int>): nat {
    oddN + |OddMissing(missing)|
  }

  /** `even_all_n`: the even pages, scanned or missing. */
  function EvenAllCount(evenN: nat, missing: set<int>): nat {
    evenN + |EvenMissing(missing)|
  }

  /** The check before any assignment: a document of all_n pages has one more
      odd page than even pages when all_n is odd, and as many when it is even. */
  predicate Consistent(oddN: nat, evenN: nat, missing: set<int>) {
    OddAllCount(oddN, missing) - EvenAllCount(evenN, missing) == AllCount(oddN, evenN, missing) % 2
  }

  /** Every missing page is a page of a document of n pages. */
  predicate InRange(missing: set<int>, n: int) {
    forall p :: p in missing ==> 1 <= p <= n
  }

  /** Each missing page adds one to exactly one of the odd and the even count,
      so the two counts add up to all_n. */
  lemma CountsAddUp(oddN: nat, evenN: nat, missing: set<int>)
    ensures |OddMissing(missing)| + |EvenMissing(missing)| == |missing|
    ensures OddAllCount(oddN, missing) + EvenAllCount(evenN, missing) == AllCount(oddN, evenN, missing)
  {
    var odd, even := OddMissing(missing), EvenMissing(missing);
    assert odd + even == missing;
    assert odd * even == {};
  }

  /** The check passes exactly when the odd count is (all_n + 1) / 2 and the
      even count all_n / 2, that is, when they are the page counts of the two
      parities in 1..all_n. */
  lemma ConsistentCounts(oddN: nat, evenN: nat, missing: set<int>)
    ensures Consistent(oddN, evenN, missing) <==>
              OddAllCount(oddN, missing) == (AllCount(oddN, evenN, missing) + 1) / 2 &&
              EvenAllCount(evenN, missing) == AllCount(oddN, evenN, missing) / 2
  {
    CountsAddUp(oddN, evenN, missing);
  }

  /** `dirs[page % 2]` with `dirs = (even_dir, odd_dir)`. */
  function SourceDir(page: int): Side {
    if page % 2 == 0 then EvenSide else OddSide
  }

  /** The loop over `chain(even_pages, odd_pages)`: one transfer per entry,
      its source directory chosen by the parity of the page. */
  function Transfers(slots: seq<Slot>): seq<Transfer> {
    seq(|slots|, i requires 0 <= i < |slots| => Transfer(SourceDir(slots[i].page), slots[i].fidx, slots[i].page))
  }

  /** The even page list of `main`: `map_fidx2page(range(2, all_n + 1, 2), missing)`. */
  function EvenPages(oddN: nat, evenN: nat, missing: set<int>): seq<Slot> {
    MapFidx2Page(EvenRange(AllCount(oddN, evenN, missing)), missing)
  }

  /** The odd page list of `main`: `map_fidx2page(range(1, all_n + 1, 2), missing)`. */
  function OddPages(oddN: nat, evenN: nat, missing: set<int>): seq<Slot> {
    MapFidx2Page(OddRange(AllCount(oddN, evenN, missing)), missing)
  }

  /** What `main` emits once its checks have passed: the transfers of the even
      list, then those of the odd list. */
  function Assignment(oddN: nat, evenN: nat, missing: set<int>): seq<Transfer> {
    Transfers(EvenPages(oddN, evenN, missing) + OddPages(oddN, evenN, missing))
  }

  /** `main` up to its output: the validity check, the even and the odd page
      lists with their length asserts, and the transfers. It fails with
      PagesDoNotCorrespond exactly when the check fails, and then nothing is
      transferred; a success transfers every scanned file. */
  function Reconcile(oddN: nat, evenN: nat, missing: set<int>): (r: Result<seq<Transfer>>)
    ensures r == Err(PagesDoNotCorrespond) <==> !Consistent(oddN, evenN, missing)
    ensures r.Ok? ==> |r.value| == evenN + oddN
  {
    var allN := AllCount(oddN, evenN, missing);
    if OddAllCount(oddN, missing) - EvenAllCount(evenN, missing) != allN % 2 then
      Err(PagesDoNotCorrespond)
    else if |EvenPages(oddN, evenN, missing)| != evenN then
      Err(EvenCountMismatch)
    else if |OddPages(oddN, evenN, missing)| != oddN then
      Err(OddCountMismatch)
    else
      Ok(Assignment(oddN, evenN, missing))
  }

  /** A success is the assignment, with even_n entries in the even list and
      odd_n in the odd list. */
  lemma ReconcileShape(oddN: nat, evenN: nat, missing: set<int>)
    requires Reconcile(oddN, evenN, missing).Ok?
    ensures |EvenPages(oddN, evenN, missing)| == evenN && |OddPages(oddN, evenN, missing)| == oddN
    ensures Reconcile(oddN, evenN, missing).value == Assignment(oddN, evenN, missing)
  {
  }

  lemma IncreasingIsDistinct(s: seq<int>)
    requires Increasing(s)
    ensures Distinct(s)
  {
  }

  /** Of the pages of one parity in 1..n, the missing ones are exactly the
      missing pages of that parity, when all missing pages lie in 1..n. */
  lemma MissingInRanges(missing: set<int>, n: nat)
    requires InRange(missing, n)
    ensures missing * Elems(EvenRange(n)) == EvenMissing(missing)
    ensures missing * Elems(OddRange(n)) == OddMissing(missing)
  {
    forall x | x in missing {
      ParityRangesPartition(n, x);
    }
  }

  /** When the check passes and the missing pages lie in 1..all_n, the even
      list has even_n entries and the odd list odd_n: the asserts at lines 25
      and 28 never fire. */
  lemma ParityListLengths(oddN: nat, evenN: nat, missing: set<int>)
    requires Consistent(oddN, evenN, missing)
    requires InRange(missing, AllCount(oddN, evenN, missing))
    ensures |EvenPages(oddN, evenN, missing)| == evenN
    ensures |OddPages(oddN, evenN, missing)| == oddN
  {
    var n := AllCount(oddN, evenN, missing);
    ConsistentCounts(oddN, evenN, missing);
    ParityRangesPartition(n, 0);
    StepRangeIncreasing(2, n + 1);
    StepRangeIncreasing(1, n + 1);
    IncreasingIsDistinct(EvenRange(n));
    IncreasingIsDistinct(OddRange(n));
    MapFidx2PageLength(EvenRange(n), missing);
    MapFidx2PageLength(OddRange(n), missing);
    MissingInRanges(missing, n);
  }

  /** A subset as large as its superset is the whole superset. */
  lemma SubsetSameSize(a: set<int>, b: set<int>)
    requires a <= b && |a| == |b|
    ensures a == b
  {
    var d := b - a;
    assert b == a + d && a * d == {};
  }

  /** When the missing pages inside the two parity ranges of 1..n are as
      many as all the missing pages, every missing page lies in 1..n. */
  lemma MissingCountedInRanges(missing: set<int>, n: nat)
    requires |missing * Elems(EvenRange(n))| + |missing * Elems(OddRange(n))| == |missing|
    ensures InRange(missing, n)
  {
    var inEven, inOdd := missing * Elems(EvenRange(n)), missing * Elems(OddRange(n));
    forall x | x in inEven ensures x !in inOdd {
      ParityRangesPartition(n, x);
    }
    assert inEven * inOdd == {};
    SubsetSameSize(inEven + inOdd, missing);
    forall p | p in missing ensures 1 <= p <= n {
      assert p in inEven + inOdd;
      ParityRangesPartition(n, p);
    }
  }

  /** If the even list has even_n entries and the odd list odd_n, every
      missing page lies in 1..all_n: the missing pages inside the two parity
      ranges already account for all of `missing`. */
  lemma ListLengthsForceInRange(oddN: nat, evenN: nat, missing: set<int>)
    requires |EvenPages(oddN, evenN, missing)| == evenN
    requires |OddPages(oddN, evenN, missing)| == oddN
    ensures InRange(missing, AllCount(oddN, evenN, missing))
  {
    var n := AllCount(oddN, evenN, missing);
    ParityRangesPartition(n, 0);
    StepRangeIncreasing(2, n + 1);
    StepRangeIncreasing(1, n + 1);
    IncreasingIsDistinct(EvenRange(n));
    IncreasingIsDistinct(OddRange(n));
    MapFidx2PageLength(EvenRange(n), missing);
    MapFidx2PageLength(OddRange(n), missing);
    MissingCountedInRanges(missing, n);
  }

  /** Only input whose missing pages lie in 1..all_n gets past both asserts. */
  lemma ReconcileOkInRange(oddN: nat, evenN: nat, missing: set<int>)
    requires Reconcile(oddN, evenN, missing).Ok?
    ensures InRange(missing, AllCount(oddN, evenN, missing))
  {
    ReconcileShape(oddN, evenN, missing);
    ListLengthsForceInRange(oddN, evenN, missing);
  }

  /** A consistent input whose missing pages lie in the document succeeds. */
  lemma ReconcileSucceeds(oddN: nat, evenN: nat, missing: set<int>)
    requires Consistent(oddN, evenN, missing)
    requires InRange(missing, AllCount(oddN, evenN, missing))
    ensures Reconcile(oddN, evenN, missing).Ok?
  {
    ParityListLengths(oddN, evenN, missing);
  }

  /** `main` succeeds exactly when the check passes and every missing page
      lies in 1..all_n. */
  lemma ReconcileSucceedsIff(oddN: nat, evenN: nat, missing: set<int>)
    ensures Reconcile(oddN, evenN, missing).Ok? <==>
              Consistent(oddN, evenN, missing) && InRange(missing, AllCount(oddN, evenN, missing))
  {
    if Reconcile(oddN, evenN, missing).Ok? {
      ReconcileOkInRange(oddN, evenN, missing);
    }
    if Consistent(oddN, evenN, missing) && InRange(missing, AllCount(oddN, evenN, missing)) {
      ReconcileSucceeds(oddN, evenN, missing);
    }
  }

  /** Every input that passes the check but declares a missing page outside
      1..all_n fails one of the length asserts instead of being rejected. */
  lemma OutOfRangeTripsAssert(oddN: nat, evenN: nat, missing: set<int>)
    requires Consistent(oddN, evenN, missing)
    requires !InRange(missing, AllCount(oddN, evenN, missing))
    ensures Reconcile(oddN, evenN, missing) == Err(EvenCountMismatch) ||
            Reconcile(oddN, evenN, missing) == Err(OddCountMismatch)
  {
    ReconcileSucceedsIff(oddN, evenN, missing);
  }

  /** The transfers of two concatenated lists: those of the first, then
      those of the second. */
  lemma TransfersConcat(a: seq<Slot>, b: seq<Slot>, i: nat)
    ensures |Transfers(a + b)| == |a| + |b|
    ensures i < |a| ==> Transfers(a + b)[i] == Transfer(SourceDir(a[i].page), a[i].fidx, a[i].page)
    ensures |a| <= i < |a| + |b| ==>
              Transfers(a + b)[i] == Transfer(SourceDir(b[i - |a|].page), b[i - |a|].fidx, b[i - |a|].page)
  {
  }

  /** The entries of the even list are even pages of the document that are
      not missing. */
  lemma EvenPagesAreEven(oddN: nat, evenN: nat, missing: set<int>, i: nat)
    requires i < |EvenPages(oddN, evenN, missing)|
    ensures var p := EvenPages(oddN, evenN, missing)[i].page;
      p % 2 == 0 && 1 <= p <= AllCount(oddN, evenN, missing) && p !in missing
  {
    ParityRangesPartition(AllCount(oddN, evenN, missing), EvenPages(oddN, evenN, missing)[i].page);
  }

  /** The entries of the odd list are odd pages of the document that are not
      missing. */
  lemma OddPagesAreOdd(oddN: nat, evenN: nat, missing: set<int>, i: nat)
    requires i < |OddPages(oddN, evenN, missing)|
    ensures var p := OddPages(oddN, evenN, missing)[i].page;
      p % 2 == 1 && 1 <= p <= AllCount(oddN, evenN, missing) && p !in missing
  {
    ParityRangesPartition(AllCount(oddN, evenN, missing), OddPages(oddN, evenN, missing)[i].page);
  }

  /** The transfers of an even list and an odd list whose file indices are
      their positions: the even entries first, from the even directory, then
      the odd ones, from the odd directory. */
  lemma TransfersOfParityLists(even: seq<Slot>, odd: seq<Slot>)
    requires forall i :: 0 <= i < |even| ==> even[i].fidx == i && even[i].page % 2 == 0
    requires forall i :: 0 <= i < |odd| ==> odd[i].fidx == i && odd[i].page % 2 == 1
    ensures var ts := Transfers(even + odd);
      |ts| == |even| + |odd| &&
      (forall i :: 0 <= i < |even| ==>
        ts[i].dir == EvenSide && ts[i].fidx == i && ts[i].page % 2 == 0 && ts[i].page == even[i].page) &&
      (forall i :: |even| <= i < |ts| ==>
        ts[i].dir == OddSide && ts[i].fidx == i - |even| && ts[i].page % 2 == 1 &&
        ts[i].page == odd[i - |even|].page)
  {
    var ts := Transfers(even + odd);
    TransfersConcat(even, odd, 0);
    forall i | 0 <= i < |even|
      ensures ts[i].dir == EvenSide && ts[i].fidx == i && ts[i].page == even[i].page
    {
      TransfersConcat(even, odd, i);
    }
    forall i | |even| <= i < |ts|
      ensures ts[i].dir == OddSide && ts[i].fidx == i - |even| && ts[i].page == odd[i - |even|].page
    {
      TransfersConcat(even, odd, i);
    }
  }

  /** Every even page is taken from the even directory and every odd page from
      the odd directory, and the source file index is the page's position among
      the pages of its parity that are not missing: the first k transfers use
      files 0..k-1 of the even directory, the others files 0, 1, ... of the odd
      directory. */
  lemma AssignmentSources(oddN: nat, evenN: nat, missing: set<int>)
    ensures var ts, even, odd := Assignment(oddN, evenN, missing),
                                 EvenPages(oddN, evenN, missing), OddPages(oddN, evenN, missing);
      |ts| == |even| + |odd| &&
      (forall i :: 0 <= i < |even| ==>
        ts[i].dir == EvenSide && ts[i].fidx == i && ts[i].page % 2 == 0 && ts[i].page == even[i].page) &&
      (forall i :: |even| <= i < |ts| ==>
        ts[i].dir == OddSide && ts[i].fidx == i - |even| && ts[i].page % 2 == 1 &&
        ts[i].page == odd[i - |even|].page)
  {
    var even, odd := EvenPages(oddN, evenN, missing), OddPages(oddN, evenN, missing);
    forall i | 0 <= i < |even| ensures even[i].page % 2 == 0 {
      EvenPagesAreEven(oddN, evenN, missing, i);
    }
    forall i | 0 <= i < |odd| ensures odd[i].page % 2 == 1 {
      OddPagesAreOdd(oddN, evenN, missing, i);
    }
    TransfersOfParityLists(even, odd);
  }

  /** Within each directory, files are assigned to pages in ascending order. */
  lemma AssignmentAscending(oddN: nat, evenN: nat, missing: set<int>)
    ensures var ts, k := Assignment(oddN, evenN, missing), |EvenPages(oddN, evenN, missing)|;
      (forall i, j :: 0 <= i < j < k ==> ts[i].page < ts[j].page) &&
      (forall i, j :: k <= i < j < |ts| ==> ts[i].page < ts[j].page)
  {
    var n := AllCount(oddN, evenN, missing);
    AssignmentSources(oddN, evenN, missing);
    StepRangeIncreasing(2, n + 1);
    StepRangeIncreasing(1, n + 1);
    MapFidx2PageAscending(EvenRange(n), missing);
    MapFidx2PageAscending(OddRange(n), missing);
  }

  /** No two transfers share a destination page. */
  lemma AssignmentDistinctPages(oddN: nat, evenN: nat, missing: set<int>)
    ensures var ts := Assignment(oddN, evenN, missing);
      forall i, j :: 0 <= i < j < |ts| ==> ts[i].page != ts[j].page
  {
    AssignmentSources(oddN, evenN, missing);
    AssignmentAscending(oddN, evenN, missing);
  }

  /** Every page 1..all_n that is not missing is written. */
  lemma AssignmentCoversDocument(oddN: nat, evenN: nat, missing: set<int>, p: int)
    requires 1 <= p <= AllCount(oddN, evenN, missing) && p !in missing
    ensures exists i :: 0 <= i < |Assignment(oddN, evenN, missing)| && Assignment(oddN, evenN, missing)[i].page == p
  {
    var n := AllCount(oddN, evenN, missing);
    var ts := Assignment(oddN, evenN, missing);
    var even, odd := EvenPages(oddN, evenN, missing), OddPages(oddN, evenN, missing);
    ParityRangesPartition(n, p);
    if p % 2 == 0 {
      MapFidx2PageComplete(EvenRange(n), missing, p);
      var i :| 0 <= i < |even| && even[i].page == p;
      TransfersConcat(even, odd, i);
      assert ts[i].page == p;
    } else {
      MapFidx2PageComplete(OddRange(n), missing, p);
      var i :| 0 <= i < |odd| && odd[i].page == p;
      TransfersConcat(even, odd, |even| + i);
      assert ts[|even| + i].page == p;
    }
  }

  /** Every page written is a page 1..all_n that is not missing. */
  lemma AssignmentWithinDocument(oddN: nat, evenN: nat, missing: set<int>, i: nat)
    requires i < |Assignment(oddN, evenN, missing)|
    ensures var p := Assignment(oddN, evenN, missing)[i].page;
      1 <= p <= AllCount(oddN, evenN, missing) && p !in missing
  {
    AssignmentSources(oddN, evenN, missing);
    var k := |EvenPages(oddN, evenN, missing)|;
    if i < k {
      EvenPagesAreEven(oddN, evenN, missing, i);
    } else {
      OddPagesAreOdd(oddN, evenN, missing, i - k);
    }
  }

  /** The pages written are exactly the pages 1..all_n that are not missing. */
  lemma AssignmentPages(oddN: nat, evenN: nat, missing: set<int>)
    ensures (set t | t in Assignment(oddN, evenN, missing) :: t.page)
            == (set p | 1 <= p <= AllCount(oddN, evenN, missing) && p !in missing)
  {
    var n := AllCount(oddN, evenN, missing);
    var ts := Assignment(oddN, evenN, missing);
    forall p | 1 <= p <= n && p !in missing ensures p in (set t | t in ts :: t.page) {
      AssignmentCoversDocument(oddN, evenN, missing, p);
      var i :| 0 <= i < |ts| && ts[i].page == p;
      assert ts[i] in ts;
    }
    forall t | t in ts ensures 1 <= t.page <= n && t.page !in missing {
      var i :| 0 <= i < |ts| && ts[i] == t;
      AssignmentWithinDocument(oddN, evenN, missing, i);
    }
  }

  /** Everything together: a consistent input whose missing pages lie in the
      document succeeds; it writes every page 1..all_n that is not missing,
      each exactly once; the first even_n transfers take files 0..even_n-1 of
      the even directory and the other odd_n take files 0..odd_n-1 of the odd
      directory, each to a page of the directory's parity. */
  lemma ReconcileCorrect(oddN: nat, evenN: nat, missing: set<int>)
    requires Consistent(oddN, evenN, missing)
    requires InRange(missing, AllCount(oddN, evenN, missing))
    ensures Reconcile(oddN, evenN, missing).Ok?
    ensures var ts := Reconcile(oddN, evenN, missing).value;
      && |ts| == evenN + oddN
      && (set t | t in ts :: t.page) == (set p | 1 <= p <= AllCount(oddN, evenN, missing) && p !in missing)
      && (forall i, j :: 0 <= i < j < |ts| ==> ts[i].page != ts[j].page)
      && (forall i :: 0 <= i < evenN ==> ts[i].dir == EvenSide && ts[i].fidx == i && ts[i].page % 2 == 0)
      && (forall i :: evenN <= i < |ts| ==> ts[i].dir == OddSide && ts[i].fidx == i - evenN && ts[i].page % 2 == 1)
  {
    ReconcileSucceeds(oddN, evenN, missing);
    ReconcileShape(oddN, evenN, missing);
    AssignmentSources(oddN, evenN, missing);
    AssignmentPages(oddN, evenN, missing);
    AssignmentDistinctPages(oddN, evenN, missing);
  }

  /** The configuration the script runs with (100 odd and 98 even scans,
      pages 10 and 12 not scanned) is a consistent document of 200 pages. */
  lemma ScriptConfigurationSucceeds()
    ensures Reconcile(100, 98, {10, 12}).Ok?
  {
    var m: set<int> := {10, 12};
    assert OddMissing(m) == {} && EvenMissing(m) == m;
    ReconcileSucceeds(100, 98, m);
  }

  // The worked examples below take their concrete inputs as parameters pinned
  // by `requires` instead of as literals: on literal arguments the verifier
  // would keep unfolding the recursive range and filter definitions.

  /** The counts of three odd scans, two even scans and page 4 missing. */
  lemma SixPageCounts(oddN: nat, evenN: nat, missing: set<int>)
    requires oddN == 3 && evenN == 2 && missing == {4}
    ensures AllCount(oddN, evenN, missing) == 6 && Consistent(oddN, evenN, missing)
  {
    assert OddMissing(missing) == {} && EvenMissing(missing) == missing;
  }

  /** Their even list: files 0 and 1 become pages 2 and 6. */
  lemma SixPageEvenList(oddN: nat, evenN: nat, missing: set<int>)
    requires oddN == 3 && evenN == 2 && missing == {4}
    ensures EvenPages(oddN, evenN, missing) == [Slot(0, 2), Slot(1, 6)]
  {
    SixPageCounts(oddN, evenN, missing);
    assert EvenRange(6) == [2, 4, 6];
    assert [2, 4, 6][1..] == [4, 6] && [4, 6][1..] == [6] && [6][1..] == [];
    assert Keep([6], missing) == [6];
    assert Keep([4, 6], missing) == [6];
    assert Keep([2, 4, 6], missing) == [2, 6];
  }

  /** Their odd list: files 0, 1 and 2 become pages 1, 3 and 5. */
  lemma SixPageOddList(oddN: nat, evenN: nat, missing: set<int>)
    requires oddN == 3 && evenN == 2 && missing == {4}
    ensures OddPages(oddN, evenN, missing) == [Slot(0, 1), Slot(1, 3), Slot(2, 5)]
  {
    SixPageCounts(oddN, evenN, missing);
    assert OddRange(6) == [1, 3, 5];
    assert [1, 3, 5][1..] == [3, 5] && [3, 5][1..] == [5] && [5][1..] == [];
    assert Keep([5], missing) == [5];
    assert Keep([3, 5], missing) == [3, 5];
    assert Keep([1, 3, 5], missing) == [1, 3, 5];
  }

  /** The transfers of those two lists, even pages first. */
  lemma SixPageTransfers()
    ensures Transfers([Slot(0, 2), Slot(1, 6)] + [Slot(0, 1), Slot(1, 3), Slot(2, 5)]) == [
      Transfer(EvenSide, 0, 2), Transfer(EvenSide, 1, 6),
      Transfer(OddSide, 0, 1), Transfer(OddSide, 1, 3), Transfer(OddSide, 2, 5)]
  {
  }

  /** Three odd scans, two even scans, page 4 missing: a document of six pages
      where the odd files become pages 1, 3, 5 and the even files pages 2, 6. */
  lemma SixPageExample(oddN: nat, evenN: nat, missing: set<int>)
    requires oddN == 3 && evenN == 2 && missing == {4}
    ensures Reconcile(oddN, evenN, missing) == Ok([
      Transfer(EvenSide, 0, 2), Transfer(EvenSide, 1, 6),
      Transfer(OddSide, 0, 1), Transfer(OddSide, 1, 3), Transfer(OddSide, 2, 5)])
  {
    SixPageCounts(oddN, evenN, missing);
    SixPageEvenList(oddN, evenN, missing);
    SixPageOddList(oddN, evenN, missing);
    SixPageTransfers();
  }

  /** Two odd scans and three even scans with nothing missing cannot be one
      document: the even pages would outnumber the odd ones. */
  lemma MoreEvenThanOddRejected()
    ensures Reconcile(2, 3, {}) == Err(PagesDoNotCorrespond)
  {
    assert OddMissing({}) == {} && EvenMissing({}) == {};
  }

  /** Page 0 is no page of the document: declaring it missing removes nothing
      from the even range, which keeps its n / 2 pages. */
  lemma PageZeroRemovesNothing(n: nat)
    ensures |MapFidx2Page(EvenRange(n), {0})| == n / 2
  {
    ParityRangesPartition(n, 0);
    StepRangeIncreasing(2, n + 1);
    IncreasingIsDistinct(EvenRange(n));
    MapFidx2PageLength(EvenRange(n), {0});
    assert {0} * Elems(EvenRange(n)) == {};
  }

  /** The even list when page 0 is declared missing and there is one more odd
      scan than even scans: the counts agree, and the even range of the
      2 * even_n + 3 pages holds even_n + 1 pages, none of them missing. */
  lemma ZeroMissingEvenList(oddN: nat, evenN: nat)
    requires oddN == evenN + 2
    ensures Consistent(oddN, evenN, {0})
    ensures |EvenPages(oddN, evenN, {0})| == evenN + 1
  {
    var m: set<int> := {0};
    assert OddMissing(m) == {} && EvenMissing(m) == m;
    assert AllCount(oddN, evenN, m) == 2 * evenN + 3;
    PageZeroRemovesNothing(2 * evenN + 3);
  }

  /** The check at line 21 lets a missing page outside the document through:
      with one more odd scan than even scans and page 0 declared missing the
      counts agree, yet the even list is one entry too long and the assert at
      line 25 fails. */
  lemma OutOfRangeMissingTripsAssert(oddN: nat, evenN: nat)
    requires oddN == evenN + 2
    ensures Consistent(oddN, evenN, {0}) && !InRange({0}, AllCount(oddN, evenN, {0}))
    ensures Reconcile(oddN, evenN, {0}) == Err(EvenCountMismatch)
  {
    ZeroMissingEvenList(oddN, evenN);
  }

  /** The script's own batch sizes, 100 and 98, with page 0 declared missing. */
  lemma ScriptSizesTripAssert(oddN: nat, evenN: nat)
    requires oddN == 100 && evenN == 98
    ensures Reconcile(oddN, evenN, {0}) == Err(EvenCountMismatch)
  {
    OutOfRangeMissingTripsAssert(oddN, evenN);
  }

  /** `main` with the check it evidently intends: a missing page outside
      1..all_n is reported as the input error it is, so a failure is always
      PagesDoNotCorrespond, never one of the internal asserts, and a success
      is the result of `main` itself. */
  function ReconcileChecked(oddN: nat, evenN: nat, missing: set<int>): (r: Result<seq<Transfer>>)
    ensures r.Ok? || r == Err(PagesDoNotCorrespond)
    ensures r.Ok? <==> Consistent(oddN, evenN, missing) && InRange(missing, AllCount(oddN, evenN, missing))
    ensures r.Ok? ==> r == Reconcile(oddN, evenN, missing)
    ensures r.Ok? <==> Reconcile(oddN, evenN, missing).Ok?
    ensures r != Reconcile(oddN, evenN, missing) ==>
              Reconcile(oddN, evenN, missing) == Err(EvenCountMismatch) ||
              Reconcile(oddN, evenN, missing) == Err(OddCountMismatch)
  {
    ReconcileSucceedsIff(oddN, evenN, missing);
    if !Consistent(oddN, evenN, missing) then
      Err(PagesDoNotCorrespond)
    else if !InRange(missing, AllCount(oddN, evenN, missing)) then
      OutOfRangeTripsAssert(oddN, evenN, missing);
      Err(PagesDoNotCorrespond)
    else
      Reconcile(oddN, evenN, missing)
  }
}
