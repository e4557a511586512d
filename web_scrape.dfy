/** The self-contained logic of src/web_scrape.py: extracting the Scopus
    identifier from a search result's `dc:identifier` field, collecting those
    identifiers for every search result, and selecting one 1-based batch of
    the identifier list. */
module WebScrape {
  import opened Wrappers

  // ---------------------------------------------------------------------
  // Digits and digit runs
  // ---------------------------------------------------------------------

  /** The characters matched by the regular expression `\d`, restricted to ASCII. */
  predicate IsDigit(c: char) {
    '0' <= c <= '9'
  }

  predicate AllDigits(s: string) {
    forall k :: 0 <= k < |s| ==> IsDigit(s[k])
  }

  predicate HasDigit(s: string) {
    exists k :: 0 <= k < |s| && IsDigit(s[k])
  }

  /** The first position at or after `i` that holds a digit, or `|s|` when there is none. */
  function NextDigit(s: string, i: nat): (k: nat)
    requires i <= |s|
    ensures i <= k <= |s|
    ensures forall m :: i <= m < k ==> !IsDigit(s[m])
    ensures k < |s| ==> IsDigit(s[k])
    decreases |s| - i
  {
    if i == |s| || IsDigit(s[i]) then i else NextDigit(s, i + 1)
  }

  /** The first position at or after `i` that does not hold a digit, or `|s|`. */
  function RunEnd(s: string, i: nat): (k: nat)
    requires i <= |s|
    ensures i <= k <= |s|
    ensures forall m :: i <= m < k ==> IsDigit(s[m])
    ensures k < |s| ==> !IsDigit(s[k])
    decreases |s| - i
  {
    if i == |s| || !IsDigit(s[i]) then i else RunEnd(s, i + 1)
  }

  /** The runs of digits of `s`, left to right, modelling the list that
      `re.findall(r"\d+", s)` returns: each match ends at a non-digit or at
      the end of the string, and the next search resumes there. That every
      run is maximal is DigitRunsMaximal. */
  function DigitRuns(s: string): (runs: seq<string>)
    ensures forall k :: 0 <= k < |runs| ==> |runs[k]| > 0 && AllDigits(runs[k])
    ensures |runs| == 0 <==> !HasDigit(s)
    decreases |s|
  {
    var i := NextDigit(s, 0);
    if i == |s| then
      []
    else
      var j := RunEnd(s, i);
      [s[i..j]] + DigitRuns(s[j..])
  }

  /** The digit characters of `s`, in order, with everything else dropped. */
  function DigitsOf(s: string): string
    decreases |s|
  {
    if s == [] then [] else (if IsDigit(s[0]) then [s[0]] else []) + DigitsOf(s[1..])
  }

  /** Concatenation of a sequence of sequences. */
  function Flatten<T>(parts: seq<seq<T>>): seq<T>
    decreases |parts|
  {
    if parts == [] then [] else parts[0] + Flatten(parts[1..])
  }

  lemma {:induction false} DigitsOfAppend(a: string, b: string)
    ensures DigitsOf(a + b) == DigitsOf(a) + DigitsOf(b)
    decreases |a|
  {
    if a != [] {
      assert (a + b)[0] == a[0];
      assert (a + b)[1..] == a[1..] + b;
      DigitsOfAppend(a[1..], b);
    } else {
      assert a + b == b;
    }
  }

  lemma {:induction false} DigitsOfDigitFree(s: string)
    requires !HasDigit(s)
    ensures DigitsOf(s) == []
    decreases |s|
  {
    if s != [] {
      assert !IsDigit(s[0]);
      assert !HasDigit(s[1..]) by {
        forall k | 0 <= k < |s[1..]| ensures !IsDigit(s[1..][k]) {
          assert s[1..][k] == s[k + 1];
        }
      }
      DigitsOfDigitFree(s[1..]);
    }
  }

  lemma {:induction false} DigitsOfAllDigits(s: string)
    requires AllDigits(s)
    ensures DigitsOf(s) == s
    decreases |s|
  {
    if s != [] {
      assert IsDigit(s[0]);
      assert AllDigits(s[1..]) by {
        forall k | 0 <= k < |s[1..]| ensures IsDigit(s[1..][k]) {
          assert s[1..][k] == s[k + 1];
        }
      }
      DigitsOfAllDigits(s[1..]);
      assert [s[0]] + s[1..] == s;
    }
  }

  lemma NoDigitBefore(s: string, i: nat)
    requires i <= |s|
    requires forall m :: 0 <= m < i ==> !IsDigit(s[m])
    ensures !HasDigit(s[..i])
  {
    forall k | 0 <= k < i ensures !IsDigit(s[..i][k]) {
      assert s[..i][k] == s[k];
    }
  }

  lemma DigitsBetween(s: string, i: nat, j: nat)
    requires i <= j <= |s|
    requires forall m :: i <= m < j ==> IsDigit(s[m])
    ensures AllDigits(s[i..j])
  {
    forall k | 0 <= k < j - i ensures IsDigit(s[i..j][k]) {
      assert s[i..j][k] == s[i + k];
    }
  }

  /** Dropping a digit-free prefix and keeping a run of digits. */
  lemma DigitsOfRun(prefix: string, run: string, rest: string)
    requires !HasDigit(prefix) && AllDigits(run)
    ensures DigitsOf(prefix + run + rest) == run + DigitsOf(rest)
  {
    DigitsOfAppend(prefix + run, rest);
    DigitsOfAppend(prefix, run);
    DigitsOfDigitFree(prefix);
    DigitsOfAllDigits(run);
  }

  /** The runs that findall returns, put back together, are exactly the digit
      characters of the input in their original order: no digit is lost,
      duplicated or reordered, and nothing else is matched. */
  lemma {:induction false} DigitRunsCoverDigits(s: string)
    ensures Flatten(DigitRuns(s)) == DigitsOf(s)
    decreases |s|
  {
    var i := NextDigit(s, 0);
    NoDigitBefore(s, i);
    if i == |s| {
      assert s[..i] == s;
      DigitsOfDigitFree(s);
    } else {
      var j := RunEnd(s, i);
      DigitsBetween(s, i, j);
      assert s == s[..i] + s[i..j] + s[j..];
      DigitsOfRun(s[..i], s[i..j], s[j..]);
      DigitRunsCoverDigits(s[j..]);
      assert DigitRuns(s) == [s[i..j]] + DigitRuns(s[j..]);
      assert DigitRuns(s)[1..] == DigitRuns(s[j..]);
    }
  }

  // ---------------------------------------------------------------------
  // find_scopus_id_in_serch_result
  // ---------------------------------------------------------------------

  /** The first number in a search result's identifier field, or `None` when
      the field contains no digit (the Python function then falls off its end). */
  function FindScopusId(searchResult: string): (r: Option<string>)
    ensures r.None? <==> !HasDigit(searchResult)
    ensures r.Some? ==> |r.value| > 0 && AllDigits(r.value)
  {
    var numbers := DigitRuns(searchResult);
    if |numbers| > 0 then Some(numbers[0]) else None
  }

  /** `s[i..j]` is the first maximal run of digits of `s`: non-empty, all
      digits, no digit before it, and no digit right after it. */
  predicate IsFirstRun(s: string, i: int, j: int) {
    0 <= i < j <= |s| && AllDigits(s[i..j]) && !HasDigit(s[..i]) && (j == |s| || !IsDigit(s[j]))
  }

  /** findall's list is the first maximal digit run of `s`, followed by the
      list for what comes after that run; so every element is a maximal run. */
  lemma DigitRunsMaximal(s: string)
    requires HasDigit(s)
    ensures exists i, j :: IsFirstRun(s, i, j) && DigitRuns(s) == [s[i..j]] + DigitRuns(s[j..])
  {
    var i := NextDigit(s, 0);
    var j := RunEnd(s, i);
    DigitsBetween(s, i, j);
    NoDigitBefore(s, i);
    assert IsFirstRun(s, i, j);
  }

  lemma DigitFreeAt(s: string, n: nat, k: nat)
    requires n <= |s| && !HasDigit(s[..n]) && k < n
    ensures !IsDigit(s[k])
  {
    assert s[..n][k] == s[k];
  }

  lemma AllDigitsAt(s: string, a: nat, b: nat, k: nat)
    requires a <= k < b <= |s| && AllDigits(s[a..b])
    ensures IsDigit(s[k])
  {
    assert s[a..b][k - a] == s[k];
  }

  /** There is at most one first maximal run. */
  lemma FirstRunUnique(s: string, i: int, j: int, i': int, j': int)
    requires IsFirstRun(s, i, j) && IsFirstRun(s, i', j')
    ensures i == i' && j == j'
  {
    AllDigitsAt(s, i, j, i);
    AllDigitsAt(s, i', j', i');
    if i < i' {
      DigitFreeAt(s, i', i);
      assert false;
    } else if i' < i {
      DigitFreeAt(s, i, i');
      assert false;
    } else if j < j' {
      AllDigitsAt(s, i, j', j);
      assert false;
    } else if j' < j {
      AllDigitsAt(s, i, j, j');
      assert false;
    }
  }

  /** When the extractor finds a number, it is the run starting at the first
      digit and ending at the next non-digit. */
  lemma FindScopusIdLocates(s: string)
    requires HasDigit(s)
    ensures IsFirstRun(s, NextDigit(s, 0), RunEnd(s, NextDigit(s, 0)))
    ensures FindScopusId(s) == Some(s[NextDigit(s, 0)..RunEnd(s, NextDigit(s, 0))])
  {
    var i := NextDigit(s, 0);
    var j := RunEnd(s, i);
    DigitsBetween(s, i, j);
    NoDigitBefore(s, i);
  }

  /** The extractor returns `Some(r)` exactly when `r` is the first maximal
      digit run of the input. */
  lemma FindScopusIdIsFirstRun(s: string, r: string)
    ensures FindScopusId(s) == Some(r) <==> exists i, j :: IsFirstRun(s, i, j) && r == s[i..j]
  {
    if FindScopusId(s) == Some(r) {
      FindScopusIdLocates(s);
      var i := NextDigit(s, 0);
      assert IsFirstRun(s, i, RunEnd(s, i));
    }
    if exists i, j :: IsFirstRun(s, i, j) && r == s[i..j] {
      var i, j :| IsFirstRun(s, i, j) && r == s[i..j];
      assert IsDigit(s[i]) by { assert s[i..j][0] == s[i]; }
      FindScopusIdLocates(s);
      FirstRunUnique(s, i, j, NextDigit(s, 0), RunEnd(s, NextDigit(s, 0)));
    }
  }

  /** A digit-free prefix, then a number, then nothing or a non-digit: the
      extractor returns exactly that number. */
  lemma FindScopusIdAfterPrefix(prefix: string, number: string, rest: string)
    requires !HasDigit(prefix)
    requires |number| > 0 && AllDigits(number)
    requires rest == [] || !IsDigit(rest[0])
    ensures FindScopusId(prefix + number + rest) == Some(number)
  {
    var s := prefix + number + rest;
    var i, j := |prefix|, |prefix| + |number|;
    assert s[..i] == prefix;
    assert s[i..j] == number;
    assert j < |s| ==> s[j] == rest[0];
    assert IsFirstRun(s, i, j);
    FindScopusIdIsFirstRun(s, number);
  }

  /** The identifier field of a Scopus search result yields its numeric ID. */
  lemma FindScopusIdOfScopusField()
    ensures FindScopusId("SCOPUS_ID:85186352022") == Some("85186352022")
  {
    assert "SCOPUS_ID:85186352022" == "SCOPUS_ID:" + "85186352022" + "";
    FindScopusIdAfterPrefix("SCOPUS_ID:", "85186352022", "");
  }

  // ---------------------------------------------------------------------
  // The identifier-collection loop of search_scopus
  // ---------------------------------------------------------------------

  /** For each search result's `dc:identifier` field, in order, appends the
      extracted identifier; a field without a number contributes `None`
      (by FindScopusId's contract), which is kept in its place rather than
      dropped. */
  method CollectScopusIds(identifiers: seq<string>) returns (scopusIds: seq<Option<string>>)
    ensures |scopusIds| == |identifiers|
    ensures forall k :: 0 <= k < |identifiers| ==> scopusIds[k] == FindScopusId(identifiers[k])
  {
    scopusIds := [];
    for i := 0 to |identifiers|
      invariant |scopusIds| == i
      invariant forall k :: 0 <= k < i ==> scopusIds[k] == FindScopusId(identifiers[k])
    {
      var scopusId := FindScopusId(identifiers[i]);
      scopusIds := scopusIds + [scopusId];
    }
  }

  // ---------------------------------------------------------------------
  // select_batch
  // ---------------------------------------------------------------------

  function Min(a: int, b: int): int { if a <= b then a else b }

  function Max(a: int, b: int): int { if a >= b then a else b }

  /** The two `ValueError`s of select_batch, with their messages. */
  datatype BatchError = BatchNumberNotPositive | BatchSizeNotPositive
  {
    function Message(): string {
      match this
      case BatchNumberNotPositive => "batch_number should be greater than 0"
      case BatchSizeNotPositive => "batch_size should be greater than 0"
    }
  }

  /** Python's `s[lo:hi]` for non-negative bounds: both bounds are clamped to
      `len(s)`, and the slice is empty when the upper one does not exceed the
      lower one. */
  function Slice<T>(s: seq<T>, lo: nat, hi: nat): (r: seq<T>)
    ensures |r| == Max(0, Min(hi, |s|) - Min(lo, |s|))
    ensures forall k :: 0 <= k < |r| ==> r[k] == s[lo + k]
  {
    var start := Min(lo, |s|);
    var stop := Min(hi, |s|);
    if stop <= start then [] else s[start..stop]
  }

  /** Batch `batchNumber` (1-based) of `batchSize` elements of the list, or
      the error for the first invalid argument, checked in the source's order. */
  function SelectBatch<T>(scopusList: seq<T>, batchNumber: int, batchSize: int := 25): (r: Result<seq<T>, BatchError>)
    ensures batchNumber < 1 ==> r == Failure(BatchNumberNotPositive)
    ensures batchNumber >= 1 && batchSize < 1 ==> r == Failure(BatchSizeNotPositive)
    ensures batchNumber >= 1 && batchSize >= 1 ==>
      && r.Success?
      && |r.value| == Min(batchSize, Max(0, |scopusList| - (batchNumber - 1) * batchSize))
      && forall k :: 0 <= k < |r.value| ==> r.value[k] == scopusList[(batchNumber - 1) * batchSize + k]
  {
    if batchNumber < 1 then
      Failure(BatchNumberNotPositive)
    else if batchSize < 1 then
      Failure(BatchSizeNotPositive)
    else
      assert batchNumber * batchSize == (batchNumber - 1) * batchSize + batchSize;
      Success(Slice(scopusList, (batchNumber - 1) * batchSize, batchNumber * batchSize))
  }

  /** Batches 1 to `count` of `batchSize` elements, in order. */
  function Batches<T>(scopusList: seq<T>, batchSize: int, count: nat): seq<seq<T>>
    requires batchSize >= 1
    decreases count
  {
    if count == 0 then [] else Batches(scopusList, batchSize, count - 1) + [SelectBatch(scopusList, count, batchSize).value]
  }

  lemma {:induction false} FlattenSnoc<T>(parts: seq<seq<T>>, last: seq<T>)
    ensures Flatten(parts + [last]) == Flatten(parts) + last
    decreases |parts|
  {
    if parts != [] {
      assert (parts + [last])[1..] == parts[1..] + [last];
      FlattenSnoc(parts[1..], last);
    }
  }

  /** Batches 1 to `count`, concatenated, are the first `count * batchSize`
      elements of the list (all of it when the list is shorter). */
  lemma {:induction false} BatchesArePrefix<T>(scopusList: seq<T>, batchSize: int, count: nat)
    requires batchSize >= 1
    ensures Flatten(Batches(scopusList, batchSize, count)) == scopusList[..Min(count * batchSize, |scopusList|)]
    decreases count
  {
    if count > 0 {
      var n := |scopusList|;
      var start := (count - 1) * batchSize;
      assert count * batchSize == start + batchSize;
      BatchesArePrefix(scopusList, batchSize, count - 1);
      FlattenSnoc(Batches(scopusList, batchSize, count - 1), SelectBatch(scopusList, count, batchSize).value);
      var batch := SelectBatch(scopusList, count, batchSize).value;
      assert scopusList[..Min(start + batchSize, n)] == scopusList[..Min(start, n)] + batch;
    }
  }

  /** With enough batches to reach the end, the batches put back together
      reproduce the list exactly: every element lands in exactly one batch, in
      its original order. */
  lemma BatchesReassemble<T>(scopusList: seq<T>, batchSize: int, count: nat)
    requires batchSize >= 1
    requires count * batchSize >= |scopusList|
    ensures Flatten(Batches(scopusList, batchSize, count)) == scopusList
  {
    BatchesArePrefix(scopusList, batchSize, count);
    assert scopusList[..|scopusList|] == scopusList;
  }

  /** A valid batch is the list between its two clamped bounds. */
  lemma BatchIsSlice<T>(scopusList: seq<T>, batchNumber: int, batchSize: int)
    requires batchNumber >= 1 && batchSize >= 1
    ensures SelectBatch(scopusList, batchNumber, batchSize).Success?
    ensures Min((batchNumber - 1) * batchSize, |scopusList|) <= Min(batchNumber * batchSize, |scopusList|)
    ensures SelectBatch(scopusList, batchNumber, batchSize).value
         == scopusList[Min((batchNumber - 1) * batchSize, |scopusList|)..Min(batchNumber * batchSize, |scopusList|)]
  {
    assert batchNumber * batchSize == (batchNumber - 1) * batchSize + batchSize;
  }

  /** Two batch numbers select two slices of the list, and the slice of the
      lower number ends where or before the slice of the higher one begins:
      the batches never share a position and keep the list's order. */
  lemma BatchPositionsOrdered<T>(scopusList: seq<T>, batchNumber: int, batchNumber': int, batchSize: int)
    requires 1 <= batchNumber < batchNumber' && batchSize >= 1
    ensures
      var n := |scopusList|;
      var lo, hi := Min((batchNumber - 1) * batchSize, n), Min(batchNumber * batchSize, n);
      var lo', hi' := Min((batchNumber' - 1) * batchSize, n), Min(batchNumber' * batchSize, n);
      && lo <= hi <= lo' <= hi'
      && SelectBatch(scopusList, batchNumber, batchSize).value == scopusList[lo..hi]
      && SelectBatch(scopusList, batchNumber', batchSize).value == scopusList[lo'..hi']
  {
    BatchIsSlice(scopusList, batchNumber, batchSize);
    BatchIsSlice(scopusList, batchNumber', batchSize);
    EndBeforeStart(batchNumber, batchNumber', batchSize);
  }

  lemma EndBeforeStart(batchNumber: int, batchNumber': int, batchSize: int)
    requires 1 <= batchNumber < batchNumber' && batchSize >= 1
    ensures batchNumber * batchSize <= (batchNumber' - 1) * batchSize
  {
    var gap := batchNumber' - 1 - batchNumber;
    assert gap * batchSize >= 0;
    assert (batchNumber' - 1) * batchSize == batchNumber * batchSize + gap * batchSize;
  }

  /** Thirty identifiers in batches of 25: the first 25, the remaining 5, then
      an empty batch without an error. */
  lemma ThirtyIdsInBatchesOf25<T>(scopusList: seq<T>)
    requires |scopusList| == 30
    ensures SelectBatch(scopusList, 1, 25) == Success(scopusList[..25])
    ensures SelectBatch(scopusList, 2, 25) == Success(scopusList[25..])
    ensures SelectBatch(scopusList, 3, 25) == Success([])
  {
    assert SelectBatch(scopusList, 1, 25).value == scopusList[..25];
    assert SelectBatch(scopusList, 2, 25).value == scopusList[25..];
  }
}
