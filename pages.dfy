/** Page-number sequences of one parity and the file-index assignment
    `map_fidx2page` builds from them: filter out the missing pages, then
    number what remains 0, 1, 2, ... */
module PageRanges {

  /** One entry of `map_fidx2page`'s result: the scanned file with index
      `fidx` (its position in the batch) holds page number `page`. */
  datatype Slot = Slot(fidx: nat, page: int)

  /** Set of the elements of a sequence. */
  function Elems(s: seq<int>): set<int> {
    set x | x in s
  }

  predicate Increasing(s: seq<int>) {
    forall i, j :: 0 <= i < j < |s| ==> s[i] < s[j]
  }

  predicate Distinct(s: seq<int>) {
    forall i, j :: 0 <= i < j < |s| ==> s[i] != s[j]
  }

  /** Python's `range(start, stop, 2)`: start, start + 2, ... while below stop. */
  function StepRange(start: int, stop: int): (r: seq<int>)
    ensures |r| == if start < stop then (stop - start + 1) / 2 else 0
    ensures forall i :: 0 <= i < |r| ==> r[i] == start + 2 * i
    decreases stop - start
  {
    if start < stop then [start] + StepRange(start + 2, stop) else []
  }

  /** A number lies in `range(start, stop, 2)` exactly when it is in
      [start, stop) and has the parity of `start`. */
  lemma StepRangeMembers(start: int, stop: int, x: int)
    ensures x in StepRange(start, stop) <==> start <= x < stop && (x - start) % 2 == 0
  {
    var r := StepRange(start, stop);
    if start <= x < stop && (x - start) % 2 == 0 {
      var i := (x - start) / 2;
      assert r[i] == x;
    }
  }

  lemma StepRangeIncreasing(start: int, stop: int)
    ensures Increasing(StepRange(start, stop))
  {
  }

  /** The odd pages of a document of n pages: `range(1, n + 1, 2)`. */
  function OddRange(n: int): seq<int> {
    StepRange(1, n + 1)
  }

  /** The even pages of a document of n pages: `range(2, n + 1, 2)`. */
  function EvenRange(n: int): seq<int> {
    StepRange(2, n + 1)
  }

  /** The two parity ranges partition 1..n: every page of the document is in
      exactly one of them, the odd ones in the odd range, the even ones in the
      even range, and nothing outside 1..n is in either. */
  lemma ParityRangesPartition(n: nat, x: int)
    ensures x in OddRange(n) <==> 1 <= x <= n && x % 2 == 1
    ensures x in EvenRange(n) <==> 1 <= x <= n && x % 2 == 0
    ensures x in OddRange(n) || x in EvenRange(n) <==> 1 <= x <= n
    ensures !(x in OddRange(n) && x in EvenRange(n))
    ensures |OddRange(n)| == (n + 1) / 2 && |EvenRange(n)| == n / 2
  {
    StepRangeMembers(1, n + 1, x);
    StepRangeMembers(2, n + 1, x);
  }

  /** `filter(lambda page: page not in missing, pages)`. */
  function Keep(pages: seq<int>, missing: set<int>): (r: seq<int>)
    ensures |r| <= |pages|
    ensures forall p :: p in r <==> p in pages && p !in missing
  {
    if pages == [] then []
    else if pages[0] in missing then Keep(pages[1..], missing)
    else [pages[0]] + Keep(pages[1..], missing)
  }

  /** Filtering keeps the original order: an ascending range stays ascending. */
  lemma {:induction false} KeepIncreasing(pages: seq<int>, missing: set<int>)
    requires Increasing(pages)
    ensures Increasing(Keep(pages, missing))
  {
    if pages != [] {
      KeepIncreasing(pages[1..], missing);
      var rest, r := Keep(pages[1..], missing), Keep(pages, missing);
      forall p | p in rest ensures pages[0] < p {
        var k :| 0 <= k < |pages[1..]| && pages[1..][k] == p;
        assert pages[k + 1] == p;
      }
      if pages[0] !in missing {
        forall i, j | 0 <= i < j < |r| ensures r[i] < r[j] {
          assert r[j] == rest[j - 1] && rest[j - 1] in rest;
          if i > 0 {
            assert r[i] == rest[i - 1];
          }
        }
      }
    }
  }

  /** Taking the head off a sequence without repeats. */
  lemma DistinctTail(pages: seq<int>)
    requires Distinct(pages) && pages != []
    ensures Distinct(pages[1..])
    ensures pages[0] !in Elems(pages[1..])
    ensures Elems(pages) == {pages[0]} + Elems(pages[1..])
  {
    var h, t := pages[0], pages[1..];
    forall i, j | 0 <= i < j < |t| ensures t[i] != t[j] {
      assert t[i] == pages[i + 1] && t[j] == pages[j + 1];
    }
    forall x | x in t ensures x != h {
      var k :| 0 <= k < |t| && t[k] == x;
      assert pages[k + 1] == x;
    }
    assert pages == [h] + t;
  }

  /** Filtering a sequence without repeats drops exactly one element per
      missing value that occurs in it. */
  lemma {:induction false} KeepLength(pages: seq<int>, missing: set<int>)
    requires Distinct(pages)
    ensures |Keep(pages, missing)| + |missing * Elems(pages)| == |pages|
  {
    if pages == [] {
      assert missing * Elems(pages) == {};
    } else {
      var h, t := pages[0], pages[1..];
      DistinctTail(pages);
      KeepLength(t, missing);
      var rest := missing * Elems(t);
      if h in missing {
        assert missing * Elems(pages) == {h} + rest;
      } else {
        assert missing * Elems(pages) == rest;
      }
    }
  }

  /** Filtering a single page keeps it exactly when it is not missing. */
  lemma KeepSingle(x: int, missing: set<int>)
    ensures Keep([x], missing) == if x in missing then [] else [x]
  {
    assert [x][1..] == [];
  }

  /** Filtering distributes over concatenation: each part of the input is
      filtered on its own and the results keep their order. Together with
      KeepSingle this fixes the filter on every input. */
  lemma {:induction false} KeepConcat(a: seq<int>, b: seq<int>, missing: set<int>)
    ensures Keep(a + b, missing) == Keep(a, missing) + Keep(b, missing)
  {
    if a == [] {
      assert a + b == b;
    } else {
      assert (a + b)[0] == a[0] && (a + b)[1..] == a[1..] + b;
      KeepConcat(a[1..], b, missing);
    }
  }

  /** Two ascending sequences with the same elements are equal. */
  lemma {:induction false} IncreasingUnique(s: seq<int>, t: seq<int>)
    requires Increasing(s) && Increasing(t)
    requires forall x :: x in s <==> x in t
    ensures s == t
  {
    if s != [] {
      assert s[0] in s;
    }
    if t != [] {
      assert t[0] in t;
    }
    if s != [] && t != [] {
      assert s[0] in t && t[0] in s;
      var i :| 0 <= i < |t| && t[i] == s[0];
      var j :| 0 <= j < |s| && s[j] == t[0];
      assert s[0] <= s[j] && t[0] <= t[i];
      forall x ensures x in s[1..] <==> x in t[1..] {
        if x in s[1..] {
          var k :| 0 <= k < |s[1..]| && s[1..][k] == x;
          assert s[k + 1] == x && x > s[0] && x in s;
          var l :| 0 <= l < |t| && t[l] == x;
          assert l != 0;
          assert t[1..][l - 1] == x;
        }
        if x in t[1..] {
          var k :| 0 <= k < |t[1..]| && t[1..][k] == x;
          assert t[k + 1] == x && x > t[0] && x in t;
          var l :| 0 <= l < |s| && s[l] == x;
          assert l != 0;
          assert s[1..][l - 1] == x;
        }
      }
      IncreasingUnique(s[1..], t[1..]);
      assert s == [s[0]] + s[1..] && t == [t[0]] + t[1..];
    } else if s != [] || t != [] {
      assert false;
    }
  }

  /** Python's `enumerate(s, start)`: pairs every element with its index,
      counted from `start`. */
  function Enumerate(s: seq<int>, start: nat): (r: seq<Slot>)
    ensures |r| == |s|
    ensures forall i :: 0 <= i < |r| ==> r[i] == Slot(start + i, s[i])
  {
    if s == [] then [] else [Slot(start, s[0])] + Enumerate(s[1..], start + 1)
  }

  /** `map_fidx2page(page_range, missing)`: the pages of `pageRange` that are
      not missing, in their original order, each paired with its position.
      The file indices are exactly 0, 1, ..., |r| - 1 and no missing page is
      assigned. */
  function MapFidx2Page(pageRange: seq<int>, missing: set<int>): (r: seq<Slot>)
    ensures forall i :: 0 <= i < |r| ==> r[i].fidx == i
    ensures forall i :: 0 <= i < |r| ==> r[i].page in pageRange && r[i].page !in missing
  {
    Enumerate(Keep(pageRange, missing), 0)
  }

  /** Every page of the range that is not missing is assigned a file. */
  lemma MapFidx2PageComplete(pageRange: seq<int>, missing: set<int>, p: int)
    requires p in pageRange && p !in missing
    ensures exists i :: 0 <= i < |MapFidx2Page(pageRange, missing)| && MapFidx2Page(pageRange, missing)[i].page == p
  {
    var kept := Keep(pageRange, missing);
    var i :| 0 <= i < |kept| && kept[i] == p;
    assert MapFidx2Page(pageRange, missing)[i].page == p;
  }

  /** Pages of the result, in order. */
  function PagesOf(slots: seq<Slot>): (r: seq<int>)
    ensures |r| == |slots| && forall i :: 0 <= i < |r| ==> r[i] == slots[i].page
  {
    seq(|slots|, i requires 0 <= i < |slots| => slots[i].page)
  }

  /** The pages `map_fidx2page` returns are the filtered range itself: the
      subsequence of `pageRange` without the missing pages, in order. */
  lemma MapFidx2PagePages(pageRange: seq<int>, missing: set<int>)
    ensures PagesOf(MapFidx2Page(pageRange, missing)) == Keep(pageRange, missing)
  {
  }

  /** On an ascending range the pages of `map_fidx2page` are determined by
      which pages they are: any ascending sequence holding exactly the range
      pages that are not missing is the list of pages returned, in order. */
  lemma MapFidx2PageDetermined(pageRange: seq<int>, missing: set<int>, s: seq<int>)
    requires Increasing(pageRange) && Increasing(s)
    requires forall p :: p in s <==> p in pageRange && p !in missing
    ensures PagesOf(MapFidx2Page(pageRange, missing)) == s
  {
    KeepIncreasing(pageRange, missing);
    MapFidx2PagePages(pageRange, missing);
    IncreasingUnique(Keep(pageRange, missing), s);
  }

  /** On an ascending range (as every `range(start, stop, 2)` is), files are
      assigned to pages in ascending order: a larger file index gets a larger
      page. */
  lemma MapFidx2PageAscending(pageRange: seq<int>, missing: set<int>)
    requires Increasing(pageRange)
    ensures Increasing(PagesOf(MapFidx2Page(pageRange, missing)))
  {
    KeepIncreasing(pageRange, missing);
    MapFidx2PagePages(pageRange, missing);
  }

  /** The number of assigned files is the number of range pages that are not
      missing. */
  lemma MapFidx2PageLength(pageRange: seq<int>, missing: set<int>)
    requires Distinct(pageRange)
    ensures |MapFidx2Page(pageRange, missing)| == |pageRange| - |missing * Elems(pageRange)|
  {
    KeepLength(pageRange, missing);
    MapFidx2PagePages(pageRange, missing);
  }
}
