/** strsep and strim of libc/include/string.h, in place on a buffer of characters, and their use in libc/bash.c. */
module Tokens {
  import opened Machine
  import opened TextRuns

  const NUL: char := '\0'

  // At position p the buffer holds a NUL-terminated string.
  ghost predicate CStr(a: seq<char>, p: nat, s: string) {
    p + |s| < |a| && a[p..p + |s|] == s && a[p + |s|] == NUL && NUL !in s
  }

  // The inner loop of strsep: is the character one of the delimiters?
  method IsDelim(c: char, delim: string) returns (isdelim: bool)
    ensures isdelim <==> c in delim
  {
    isdelim := false;
    var diter := 0;
    while diter < |delim|
      invariant diter <= |delim| && !isdelim && c !in delim[..diter]
    {
      if c == delim[diter] {
        isdelim := true;
        return;
      }
      assert delim[..diter + 1] == delim[..diter] + [delim[diter]];
      diter := diter + 1;
    }
  }

  // strsep on the part of a text, stored at base, that starts at `from`: the token it returns, and where the
  // caller's pointer ends up.  An empty token stands for NULL.
  method Strsep(a: array<char>, str: nat, delim: string, ghost base: nat, ghost text: string, ghost from: nat)
    returns (ret: nat, found: bool, next: nat)
    requires from <= |text| && str == base + from && CStr(a[..], str, text[from..]) && NUL !in delim
    modifies a
    ensures var i := Scan(text, delim, from, false);
            ret == base + i && (found <==> i < |text|) &&
            if i < |text| then
              var j := Scan(text, delim, i, true);
              && next == base + After(text, j)
              && a[..] == if j < |text| then old(a[..])[base + j := NUL] else old(a[..])
            else next == base + |text| && a[..] == old(a[..])
  {
    hide Scan, CStr;
    ret := str;
    var itr := str;
    ghost var k := from;
    Stored(a[..], base, text, from);
    while a[itr] != NUL
      invariant from <= k <= |text| && itr == base + k && a[..] == old(a[..]) && base + |text| < a.Length
      invariant base + from <= ret <= itr
      invariant if ret == itr then Scan(text, delim, from, false) == Scan(text, delim, k, false)
                else ret == base + Scan(text, delim, from, false)
                     && Scan(text, delim, ret - base, true) == Scan(text, delim, k, true)
      decreases |text| - k
    {
      hide Scan, CStr;
      ScanStep(text, delim, k, false);
      ScanStep(text, delim, k, true);
      var isdelim := IsDelim(a[itr], delim);
      if isdelim {
        if itr == ret {
          ret := ret + 1;
        } else {
          a[itr] := NUL;
          itr := itr + 1;
          break;
        }
      }
      itr := itr + 1;
      k := k + 1;
    }
    ScanStep(text, delim, k, false);
    ScanStep(text, delim, k, true);
    next := itr;
    found := a[ret] != NUL;
  }

  lemma Stored(a: seq<char>, base: nat, text: string, from: nat)
    requires from <= |text| && CStr(a, base + from, text[from..])
    ensures base + |text| < |a| && a[base + |text|] == NUL
    ensures forall x :: from <= x < |text| ==> a[base + x] == text[x] && text[x] != NUL
  {
  }

  lemma Holds(a: seq<char>, p: nat, s: string)
    requires p + |s| < |a| && a[p + |s|] == NUL && forall x :: 0 <= x < |s| ==> a[p + x] == s[x] && s[x] != NUL
    ensures CStr(a, p, s)
  {
  }

  // Once strsep has ended a run, the token is a string of its own and so is what is left.
  lemma TokenCut(before: seq<char>, a: seq<char>, base: nat, text: string, from: nat, i: nat, j: nat)
    requires from <= i <= j <= |text| && CStr(before, base + from, text[from..])
    requires base + |text| < |before| && a == if j < |text| then before[base + j := NUL] else before
    ensures CStr(a, base + i, text[i..j]) && CStr(a, base + After(text, j), text[After(text, j)..])
  {
    Stored(before, base, text, from);
    hide CStr;
    forall x | 0 <= x < |text[i..j]| ensures a[base + i + x] == text[i..j][x] && text[i..j][x] != NUL {
      assert before[base + (i + x)] == text[i + x];
    }
    Holds(a, base + i, text[i..j]);
    var n := After(text, j);
    forall x | 0 <= x < |text[n..]| ensures a[base + n + x] == text[n..][x] && text[n..][x] != NUL {
      assert before[base + (n + x)] == text[n + x];
    }
    Holds(a, base + n, text[n..]);
  }

  // The tokens returned so far, each still in place.
  ghost predicate InPlace(a: seq<char>, base: nat, text: string, rs: seq<Run>, params: seq<nat>) {
    && |params| == |rs|
    && forall k :: 0 <= k < |rs| ==> TokenAt(a, base, text, rs[k], params[k])
  }

  ghost predicate TokenAt(a: seq<char>, base: nat, text: string, r: Run, p: nat) {
    r.start <= r.end <= |text| && p == base + r.start && CStr(a, p, text[r.start..r.end])
  }

  // After some calls: `done` are the runs found, the rest of the text starts at `from`.
  ghost predicate Progress(a: seq<char>, start: seq<char>, delim: string, base: nat, text: string, from: nat,
                           done: seq<Run>, params: seq<nat>) {
    && from <= |text| && CStr(a, base + from, text[from..])
    && Runs(text, delim, 0) == done + Runs(text, delim, from) && InPlace(a, base, text, done, params)
    && (forall r :: r in done ==> r.end < from || from == |text|)
    && SameButDelims(start, a, delim)
  }

  // The loop of run_cmd: at most `limit` calls of strsep.
  method Params(a: array<char>, buf: nat, delim: string, limit: nat, ghost text: string) returns (params: seq<nat>)
    requires CStr(a[..], buf, text) && NUL !in delim
    modifies a
    ensures var rs := Runs(text, delim, 0);
            var n := if limit < |rs| then limit else |rs|;
            InPlace(a[..], buf, text, rs[..n], params)
    ensures SameButDelims(old(a[..]), a[..], delim)
  {
    params := [];
    var tmp := buf;
    ghost var start, from: nat, done: seq<Run> := a[..], 0, [];
    Untouched(a[..], delim, buf, text);
    assert text[0..] == text;
    hide CStr, Runs, InPlace, SameButDelims;
    var i := 0;
    while i < limit
      invariant |done| == i <= limit && tmp == buf + from
      invariant Progress(a[..], start, delim, buf, text, from, done, params)
      decreases limit - i
    {
      hide CStr, Runs, InPlace, SameButDelims, Progress;
      var found;
      found, tmp, params, from, done := OneToken(a, tmp, delim, params, start, buf, text, from, done);
      if !found {
        break;
      }
      i := i + 1;
    }
    assert Runs(text, delim, 0)[..|done|] == done;
  }

  // One turn of the loop.
  method OneToken(a: array<char>, tmp: nat, delim: string, params: seq<nat>, ghost start: seq<char>, ghost base: nat,
                  ghost text: string, ghost from: nat, ghost done: seq<Run>)
    returns (found: bool, next: nat, params': seq<nat>, ghost from': nat, ghost done': seq<Run>)
    requires Progress(a[..], start, delim, base, text, from, done, params) && tmp == base + from && NUL !in delim
    modifies a
    ensures Progress(a[..], start, delim, base, text, from', done', params')
    ensures if found then |done'| == |done| + 1 && next == base + from' else done' == done == Runs(text, delim, 0)
  {
    hide CStr, Runs, InPlace, SameButDelims, Scan;
    ghost var before := a[..];
    var token;
    token, found, next := Strsep(a, tmp, delim, base, text, from);
    RunsStep(text, delim, from);
    params', from', done' := params, from, done;
    if found {
      ghost var i := Scan(text, delim, from, false);
      ghost var j := Scan(text, delim, i, true);
      NextToken(before, a[..], delim, base, text, from, i, j, done, params);
      SameTransitive(start, before, a[..], delim);
      params', from', done' := params + [token], After(text, j), done + [Run(i, j)];
    }
  }

  lemma Untouched(a: seq<char>, delim: string, base: nat, text: string)
    ensures SameButDelims(a, a, delim) && InPlace(a, base, text, [], [])
  {
  }

  lemma SameTransitive(a: seq<char>, b: seq<char>, c: seq<char>, delim: string)
    requires SameButDelims(a, b, delim) && SameButDelims(b, c, delim) && NUL !in delim
    ensures SameButDelims(a, c, delim)
  {
  }

  // What one successful call of strsep adds.
  lemma NextToken(before: seq<char>, a: seq<char>, delim: string, base: nat, text: string, from: nat, i: nat, j: nat,
                  done: seq<Run>, params: seq<nat>)
    requires from <= i < j <= |text| && CStr(before, base + from, text[from..])
    requires j < |text| ==> text[j] in delim
    requires a == if j < |text| then before[base + j := NUL] else before
    requires InPlace(before, base, text, done, params) && forall r :: r in done ==> r.end < j
    ensures InPlace(a, base, text, done + [Run(i, j)], params + [base + i])
    ensures CStr(a, base + After(text, j), text[After(text, j)..]) && SameButDelims(before, a, delim)
  {
    Stored(before, base, text, from);
    TokenCut(before, a, base, text, from, i, j);
    EarlierTokens(before, a, base, text, done, params, j);
    hide CStr;
    var more, ps := done + [Run(i, j)], params + [base + i];
    forall k | 0 <= k < |more| ensures TokenAt(a, base, text, more[k], ps[k]) {
      assert k < |done| ==> TokenAt(a, base, text, done[k], params[k]);
    }
  }

  lemma RunsStep(s: string, delim: string, from: nat)
    requires from <= |s|
    ensures var i := Scan(s, delim, from, false);
            Runs(s, delim, from) == if i == |s| then [] else
              var j := Scan(s, delim, i, true);
              [Run(i, j)] + Runs(s, delim, After(s, j))
  {
  }

  lemma EarlierTokens(before: seq<char>, a: seq<char>, base: nat, text: string, rs: seq<Run>, params: seq<nat>, j: nat)
    requires InPlace(before, base, text, rs, params) && j <= |text| && base + |text| < |before|
    requires forall r :: r in rs ==> r.end < j
    requires a == if j < |text| then before[base + j := NUL] else before
    ensures InPlace(a, base, text, rs, params)
  {
  }

  // Only delimiters have been overwritten, and with NUL.
  ghost predicate SameButDelims(before: seq<char>, a: seq<char>, delim: string) {
    |a| == |before| && forall x :: 0 <= x < |a| ==> a[x] == before[x] || (a[x] == NUL && before[x] in delim)
  }

  // The inner loops of strim: from `itrim` on, step over trim characters that differ from c.
  method StepOver(c: char, trim: string, itrim: nat) returns (at: nat)
    requires itrim <= |trim|
    ensures itrim <= at <= |trim| && c !in trim[itrim..at] && (at < |trim| ==> c == trim[at])
  {
    at := itrim;
    while at < |trim| && c != trim[at]
      invariant itrim <= at <= |trim| && c !in trim[itrim..at]
    {
      assert trim[itrim..at + 1] == trim[itrim..at] + [trim[at]];
      at := at + 1;
    }
  }

  lemma StepOverTells(c: char, trim: string, at: nat)
    requires at <= |trim| && c !in trim[..at] && (at < |trim| ==> c == trim[at])
    ensures at == |trim| <==> c !in trim
  {
  }

  // strim.  The first loop leaves itrim at the end of the set when it stops at a character to keep.
  method Strim(a: array<char>, str: nat, trim: string, ghost text: string) returns (ret: nat)
    requires CStr(a[..], str, text) && NUL !in trim
    modifies a
    ensures CStr(a[..], ret, Trimmed(text, trim))
    ensures var i := Scan(text, trim, 0, false);
            var j := Last(text, trim, i);
            ret == str + i && a[..] == if i < |text| then old(a[..])[str + j := NUL] else old(a[..])
  {
    hide CStr, Scan, LastOf;
    assert text[0..] == text;
    Stored(a[..], str, text, 0);
    ret := str;
    var itr := str;
    var itrim := 0;
    ghost var k := 0;
    while a[itr] != NUL
      invariant k <= |text| && itr == ret == str + k && itrim == 0 && a[..] == old(a[..])
      invariant Scan(text, trim, 0, false) == Scan(text, trim, k, false)
      decreases |text| - k
    {
      hide CStr, Scan, LastOf;
      ScanStep(text, trim, k, false);
      itrim := StepOver(a[itr], trim, itrim);
      StepOverTells(a[itr], trim, itrim);
      if itrim == |trim| {
        break;
      }
      itrim := 0;
      itr := itr + 1;
      ret := ret + 1;
      k := k + 1;
    }
    ScanStep(text, trim, k, false);
    CutTail(a, itr, itrim, trim, str, text, k);
    TrimmedInPlace(old(a[..]), a[..], str, text, k, Last(text, trim, k));
  }

  // The second loop of strim.  On its first turn itrim still stands at the end of the set, which counts the
  // character, rightly, as one to keep.
  method CutTail(a: array<char>, start: nat, itrim0: nat, trim: string, ghost str: nat, ghost text: string, ghost i: nat)
    requires i <= |text| && start == str + i && CStr(a[..], str, text)
    requires i < |text| ==> text[i] !in trim
    requires itrim0 == if i < |text| then |trim| else 0
    modifies a
    ensures a[..] == if i < |text| then old(a[..])[str + Last(text, trim, i) := NUL] else old(a[..])
  {
    hide CStr, LastOf;
    assert text[0..] == text;
    Stored(a[..], str, text, 0);
    var itr, itrim := start, itrim0;
    var end: Option<nat> := None;
    ghost var k := i;
    while a[itr] != NUL
      invariant i <= k <= |text| && itr == str + k && a[..] == old(a[..]) && itr < a.Length
      invariant a[itr] == if k < |text| then text[k] else NUL
      invariant itrim == if k == i < |text| then |trim| else 0
      invariant if k == i then end == None else end.Some? && end.value + 1 == str + LastOf(text, trim, i, k)
      decreases |text| - k
    {
      hide CStr, LastOf;
      LastStep(text, trim, i, k);
      itrim := StepOver(a[itr], trim, itrim);
      if k > i { StepOverTells(a[itr], trim, itrim); }
      if itrim == |trim| {
        end := Some(itr);
      }
      itrim := 0;
      itr := itr + 1;
      k := k + 1;
    }
    if end.Some? {
      a[end.value + 1] := NUL;
    }
  }

  lemma TrimmedInPlace(before: seq<char>, a: seq<char>, base: nat, text: string, i: nat, j: nat)
    requires i <= j <= |text| && CStr(before, base, text)
    requires base + |text| < |before| && a == if i < |text| then before[base + j := NUL] else before
    ensures CStr(a, base + i, text[i..j])
  {
    assert text[0..] == text;
    Stored(before, base, text, 0);
    forall x | 0 <= x < |text[i..j]| ensures a[base + i + x] == text[i..j][x] && text[i..j][x] != NUL {
      assert before[base + (i + x)] == text[i + x];
    }
    Holds(a, base + i, text[i..j]);
  }
}
