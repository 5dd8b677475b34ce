/** Splitting and trimming text, without C strings: what strsep and strim of libc/include/string.h are for. */
module TextRuns {

  // The first position from a given one on that holds a character of the set (or, unwanted, one outside it);
  // the end of the text if there is none.
  function Scan(s: string, set_: string, from: nat, wanted: bool): (k: nat)
    requires from <= |s|
    ensures from <= k <= |s|
    ensures forall i :: from <= i < k ==> (s[i] in set_) != wanted
    ensures k < |s| ==> (s[k] in set_) == wanted
    decreases |s| - from
  {
    if from == |s| || (s[from] in set_) == wanted then from else Scan(s, set_, from + 1, wanted)
  }

  lemma ScanStep(s: string, set_: string, k: nat, wanted: bool)
    requires k <= |s|
    ensures k == |s| || (s[k] in set_) == wanted ==> Scan(s, set_, k, wanted) == k
    ensures k < |s| && (s[k] in set_) != wanted ==> Scan(s, set_, k, wanted) == Scan(s, set_, k + 1, wanted)
  {
  }

  // Where the n-th call of strsep leaves off: just past the delimiter that ended the run, or at the end.
  function After(s: string, j: nat): nat {
    if j < |s| then j + 1 else j
  }

  datatype Run = Run(start: nat, end: nat)

  // The runs strsep finds, one call after another.
  function Runs(s: string, delim: string, from: nat): (rs: seq<Run>)
    requires from <= |s|
    decreases |s| - from
  {
    var i := Scan(s, delim, from, false);
    if i == |s| then []
    else
      var j := Scan(s, delim, i, true);
      [Run(i, j)] + Runs(s, delim, After(s, j))
  }

  // A stretch without delimiters that cannot be extended on either side.
  ghost predicate MaximalRun(s: string, delim: string, r: Run) {
    && r.start < r.end <= |s|
    && (forall k :: r.start <= k < r.end ==> s[k] !in delim)
    && (r.start > 0 ==> s[r.start - 1] in delim)
    && (r.end < |s| ==> s[r.end] in delim)
  }

  ghost predicate Increasing(rs: seq<Run>) {
    forall a, b :: 0 <= a < b < |rs| ==> rs[a].end < rs[b].start
  }

  /** strsep finds exactly the maximal delimiter-free runs, from left to right. */
  lemma {:induction false} RunsAreMaximal(s: string, delim: string, from: nat)
    requires from <= |s| && (from > 0 && from < |s| ==> s[from - 1] in delim)
    ensures Increasing(Runs(s, delim, from))
    ensures forall r: Run :: r in Runs(s, delim, from) ==> from <= r.start
    ensures forall r: Run :: r in Runs(s, delim, from) <==> from <= r.start && MaximalRun(s, delim, r)
    decreases |s| - from
  {
    var i := Scan(s, delim, from, false);
    if i < |s| {
      var j := Scan(s, delim, i, true);
      var rest := Runs(s, delim, After(s, j));
      RunsAreMaximal(s, delim, After(s, j));
      assert MaximalRun(s, delim, Run(i, j));
      assert Runs(s, delim, from) == [Run(i, j)] + rest;
      forall r: Run | from <= r.start && MaximalRun(s, delim, r) ensures r in Runs(s, delim, from) {
        OnlyRun(s, delim, from, i, j, r);
      }
      forall r: Run | r in Runs(s, delim, from) ensures from <= r.start && MaximalRun(s, delim, r) {
        assert r == Run(i, j) || r in rest;
      }
    } else {
      forall r: Run | from <= r.start ensures !MaximalRun(s, delim, r) {
        assert r.start < |s| ==> s[r.start] in delim;
      }
    }
  }

  lemma OnlyRun(s: string, delim: string, from: nat, i: nat, j: nat, r: Run)
    requires from <= i < j <= |s| && MaximalRun(s, delim, Run(i, j)) && MaximalRun(s, delim, r) && from <= r.start
    requires forall k :: from <= k < i ==> s[k] in delim
    ensures r == Run(i, j) || After(s, j) <= r.start
  {
    if r.start <= j {
      assert s[r.start] !in delim;
      assert i <= r.start;
    }
  }

  // ----- Trimming -----

  // The last position at or after `from` outside the set, plus one; `from` if there is none.
  function Last(s: string, trim: string, from: nat): (k: nat)
    requires from <= |s|
    ensures from <= k <= |s|
    ensures k > from ==> s[k - 1] !in trim
    ensures forall i :: k <= i < |s| ==> s[i] in trim
    decreases |s| - from
  {
    LastOf(s, trim, from, |s|)
  }

  function LastOf(s: string, trim: string, from: nat, upTo: nat): (k: nat)
    requires from <= upTo <= |s|
    ensures from <= k <= upTo
    ensures k > from ==> s[k - 1] !in trim
    ensures forall i :: k <= i < upTo ==> s[i] in trim
    decreases upTo - from
  {
    if upTo == from || s[upTo - 1] !in trim then upTo else LastOf(s, trim, from, upTo - 1)
  }

  lemma LastStep(s: string, trim: string, from: nat, k: nat)
    requires from <= k < |s|
    ensures LastOf(s, trim, from, k + 1) == if s[k] !in trim then k + 1 else LastOf(s, trim, from, k)
    ensures LastOf(s, trim, from, from) == from
  {
  }

  function Trimmed(s: string, trim: string): string {
    var i := Scan(s, trim, 0, false);
    s[i..Last(s, trim, i)]
  }

  ghost predicate AllIn(s: string, set_: string) {
    forall i :: 0 <= i < |s| ==> s[i] in set_
  }

  /** The trimmed text is what remains when the longest prefix and the longest suffix of trim characters are
      taken off: it is the only stretch that neither begins nor ends with one and leaves only such outside. */
  lemma TrimmedIsTheMiddle(s: string, trim: string, i: nat, j: nat)
    requires i <= j <= |s| && AllIn(s[..i], trim) && AllIn(s[j..], trim)
    requires i < j ==> s[i] !in trim && s[j - 1] !in trim
    ensures s[i..j] == Trimmed(s, trim)
  {
  }
}
