/**
 Capping repetition: the first two stages of `filter_repetitive_text`, each
 compared with what it does to maximal runs of equal values.
 */
module Repetition {
  import opened Wrappers

  // ---------- maximal runs ----------

  datatype Run<+T> = Run(value: T, count: nat)

  ghost function Repeat<T>(v: T, n: nat): (r: seq<T>)
    ensures |r| == n && forall i :: 0 <= i < n ==> r[i] == v
  {
    seq(n, i => v)
  }

  ghost function Expand<T>(rs: seq<Run<T>>): seq<T> {
    if rs == [] then [] else Repeat(rs[0].value, rs[0].count) + Expand(rs[1..])
  }

  /** Nonempty runs, neighbours different: each run is maximal. */
  ghost predicate Canonical<T>(rs: seq<Run<T>>) {
    && (forall i :: 0 <= i < |rs| ==> rs[i].count > 0)
    && (forall i :: 0 < i < |rs| ==> rs[i - 1].value != rs[i].value)
  }

  /** The maximal runs of `s`. */
  ghost function Runs<T>(s: seq<T>): seq<Run<T>> {
    if s == [] then []
    else AddLast(Runs(s[..|s| - 1]), s[|s| - 1])
  }

  ghost function AddLast<T>(rs: seq<Run<T>>, x: T): seq<Run<T>> {
    var n := |rs|;
    if rs != [] && rs[n - 1].value == x then rs[..n - 1] + [Run(x, rs[n - 1].count + 1)]
    else rs + [Run(x, 1)]
  }

  lemma {:induction false} ExpandLast<T>(rs: seq<Run<T>>, r: Run<T>)
    ensures Expand(rs + [r]) == Expand(rs) + Repeat(r.value, r.count)
  {
    if rs == [] {
      assert [r][1..] == [];
      assert Expand([r]) == Repeat(r.value, r.count) + [];
    } else {
      assert (rs + [r])[1..] == rs[1..] + [r];
      ExpandLast(rs[1..], r);
    }
  }

  lemma AddLastExpand<T>(rs: seq<Run<T>>, x: T)
    requires Canonical(rs)
    ensures Canonical(AddLast(rs, x)) && Expand(AddLast(rs, x)) == Expand(rs) + [x]
  {
    var n := |rs|;
    if rs != [] && rs[n - 1].value == x {
      var front, c := rs[..n - 1], rs[n - 1].count;
      assert rs == front + [rs[n - 1]];
      ExpandLast(front, rs[n - 1]);
      ExpandLast(front, Run(x, c + 1));
      RepeatSnoc(Expand(front), x, c + 1);
    } else {
      ExpandLast(rs, Run(x, 1));
      assert Repeat(x, 1) == [x];
    }
  }

  /** `Runs` reads the maximal runs off a sequence. */
  lemma {:induction false} RunsExpand<T>(s: seq<T>)
    ensures Canonical(Runs(s)) && Expand(Runs(s)) == s
  {
    if s != [] {
      RunsExpand(s[..|s| - 1]);
      AddLastExpand(Runs(s[..|s| - 1]), s[|s| - 1]);
    }
  }

  /** The runs of all but the last element. */
  ghost function DropLast<T>(rs: seq<Run<T>>): seq<Run<T>>
    requires rs != [] && rs[|rs| - 1].count > 0
  {
    var n := |rs| - 1;
    if rs[n].count == 1 then rs[..n] else rs[..n] + [Run(rs[n].value, rs[n].count - 1)]
  }

  lemma {:induction false} DropLastExpand<T>(rs: seq<Run<T>>)
    requires rs != [] && Canonical(rs)
    ensures Expand(rs) == Expand(DropLast(rs)) + [rs[|rs| - 1].value]
  {
    var n := |rs| - 1;
    var v, c := rs[n].value, rs[n].count;
    assert rs == rs[..n] + [rs[n]];
    ExpandLast(rs[..n], rs[n]);
    RepeatSnoc(Expand(rs[..n]), v, c);
    if c > 1 {
      ExpandLast(rs[..n], Run(v, c - 1));
    } else {
      assert Expand(rs[..n]) + Repeat(v, 0) == Expand(rs[..n]);
    }
  }

  lemma RepeatSnoc<T>(front: seq<T>, v: T, n: nat)
    requires n > 0
    ensures front + Repeat(v, n) == front + Repeat(v, n - 1) + [v]
  {
  }

  lemma DropLastBack<T>(rs: seq<Run<T>>)
    requires rs != [] && Canonical(rs)
    ensures Canonical(DropLast(rs)) && AddLast(DropLast(rs), rs[|rs| - 1].value) == rs
  {
  }

  /** There is only one way to write a sequence as maximal runs. */
  lemma {:induction false} RunsUnique<T>(rs: seq<Run<T>>)
    requires Canonical(rs)
    ensures Runs(Expand(rs)) == rs
    decreases |Expand(rs)|
  {
    if rs != [] {
      DropLastExpand(rs);
      DropLastBack(rs);
      RunsUnique(DropLast(rs));
      assert Expand(rs)[..|Expand(rs)| - 1] == Expand(DropLast(rs));
    }
  }

  // ---------- words ----------

  /** Truncates every run to `m`; for `m <= 0` nothing is left. */
  ghost function Capped<T>(rs: seq<Run<T>>, m: int): (r: seq<Run<T>>)
    ensures |r| == |rs|
  {
    seq(|rs|, i requires 0 <= i < |rs| =>
      Run(rs[i].value, if m <= 0 then 0 else if m < rs[i].count then m else rs[i].count))
  }

  /** Python's `s[-m:]`. */
  function LastOf(s: seq<string>, m: int): seq<string> {
    if m <= 0 then (if -m <= |s| then s[-m..] else [])
    else if m <= |s| then s[|s| - m..] else s
  }

  predicate AllEqual(s: seq<string>, word: string) {
    forall i :: 0 <= i < |s| ==> s[i] == word
  }

  lemma {:induction false} CappedNothing<T>(rs: seq<Run<T>>)
    ensures forall m :: m <= 0 ==> Expand(Capped(rs, m)) == []
  {
    if rs != [] {
      CappedNothing(rs[1..]);
      forall m | m <= 0 ensures Expand(Capped(rs, m)) == [] {
        assert Capped(rs, m)[1..] == Capped(rs[1..], m);
      }
    }
  }

  /** The capped runs, seen from their last one. */
  lemma CappedLast(rs: seq<Run<string>>, m: int)
    requires rs != [] && Canonical(rs) && m > 0
    ensures var n := |rs| - 1;
      var front, c := Expand(Capped(rs[..n], m)), if m < rs[n].count then m else rs[n].count;
      && Expand(Capped(rs, m)) == front + Repeat(rs[n].value, c)
      && (front == [] || front[|front| - 1] != rs[n].value)
  {
    var n := |rs| - 1;
    assert Capped(rs, m) == Capped(rs[..n], m) + [Capped(rs, m)[n]];
    ExpandLast(Capped(rs[..n], m), Capped(rs, m)[n]);
    if n > 0 {
      var k := n - 1;
      assert rs[..n][..k] == rs[..k];
      assert Capped(rs[..n], m) == Capped(rs[..k], m) + [Capped(rs[..n], m)[k]];
      ExpandLast(Capped(rs[..k], m), Capped(rs[..n], m)[k]);
    }
  }

  lemma TailTest(front: seq<string>, v: string, c: nat, m: nat, word: string)
    requires 0 < c <= m && (front == [] || front[|front| - 1] != v)
    ensures var out := front + Repeat(v, c);
      (|out| >= m && AllEqual(LastOf(out, m), word)) <==> v == word && c == m
  {
    var out := front + Repeat(v, c);
    if |out| >= m {
      var recent := LastOf(out, m);
      assert recent[m - 1] == v;
      if c < m { assert recent[m - 1 - c] == front[|front| - 1]; }
    }
  }

  /** The test in the loop: is the last run already `word`, `m` times? */
  lemma RecentTest(rs: seq<Run<string>>, m: int, word: string)
    requires Canonical(rs) && m > 0
    ensures var out := Expand(Capped(rs, m));
      (|out| >= m && AllEqual(LastOf(out, m), word)) <==>
        (rs != [] && rs[|rs| - 1].value == word && rs[|rs| - 1].count >= m)
  {
    if rs != [] {
      var n := |rs| - 1;
      CappedLast(rs, m);
      TailTest(Expand(Capped(rs[..n], m)), rs[n].value, if m < rs[n].count then m else rs[n].count, m, word);
    }
  }

  lemma CappedStep(rs: seq<Run<string>>, m: int, word: string)
    requires Canonical(rs) && m > 0
    ensures var out := Expand(Capped(rs, m));
      Expand(Capped(AddLast(rs, word), m)) ==
        if rs != [] && rs[|rs| - 1].value == word && rs[|rs| - 1].count >= m then out else out + [word]
  {
    var next := AddLast(rs, word);
    AddLastExpand(rs, word);
    CappedLast(next, m);
    if rs != [] && rs[|rs| - 1].value == word {
      CappedLast(rs, m);
      assert next[..|next| - 1] == rs[..|rs| - 1];
      RepeatSnoc(Expand(Capped(rs[..|rs| - 1], m)), word, rs[|rs| - 1].count + 1);
    } else {
      assert next[..|next| - 1] == rs;
      assert Repeat(word, 1) == [word];
    }
  }

  /** What is kept, as a function of the words. */
  ghost function Filtered(words: seq<string>, maxRepeat: int): seq<string> {
    Expand(Capped(Runs(words), maxRepeat))
  }

  /** What the loop body must do with one more word. */
  lemma WordStep(words: seq<string>, n: nat, m: int)
    requires n < |words|
    ensures var out, out' := Filtered(words[..n], m), Filtered(words[..n + 1], m);
      out' == if |out| >= m && AllEqual(LastOf(out, m), words[n]) then out else out + [words[n]]
  {
    var rs := Runs(words[..n]);
    RunsExpand(words[..n]);
    assert words[..n + 1][..n] == words[..n];
    if m > 0 {
      RecentTest(rs, m, words[n]);
      CappedStep(rs, m, words[n]);
    } else {
      CappedNothing(rs);
      CappedNothing(AddLast(rs, words[n]));
    }
  }

  /** The word loop truncates every maximal run of equal words to `maxRepeat`. */
  method FilterWords(words: seq<string>, maxRepeat: int) returns (filtered: seq<string>)
    ensures filtered == Filtered(words, maxRepeat)
  {
    filtered := [];
    for n := 0 to |words|
      invariant filtered == Filtered(words[..n], maxRepeat)
    {
      WordStep(words, n, maxRepeat);
      if |filtered| >= maxRepeat {
        var recent := LastOf(filtered, maxRepeat);
        if AllEqual(recent, words[n]) {
          continue;
        }
      }
      filtered := filtered + [words[n]];
    }
    assert words[..|words|] == words;
  }

  lemma CappedCanonical<T>(rs: seq<Run<T>>, m: int)
    requires Canonical(rs) && m > 0
    ensures Canonical(Capped(rs, m))
    ensures Capped(Capped(rs, m), m) == Capped(rs, m)
  {
  }

  /** Filtering what was filtered changes nothing. */
  lemma {:induction false} FilterIdempotent(words: seq<string>, maxRepeat: int)
    ensures Filtered(Filtered(words, maxRepeat), maxRepeat) == Filtered(words, maxRepeat)
  {
    var rs := Runs(words);
    RunsExpand(words);
    if maxRepeat > 0 {
      CappedCanonical(rs, maxRepeat);
      RunsUnique(Capped(rs, maxRepeat));
    } else {
      CappedNothing(rs);
      CappedNothing(Runs(Filtered(words, maxRepeat)));
    }
  }

  /** The filter only leaves words out. */
  lemma {:induction false} FilterSubsequence(words: seq<string>, maxRepeat: int)
    ensures IsSubsequence(Filtered(words, maxRepeat), words)
  {
    RunsExpand(words);
    CappedSubsequence(Runs(words), maxRepeat);
  }

  lemma {:induction false} CappedSubsequence<T>(rs: seq<Run<T>>, m: int)
    ensures IsSubsequence(Expand(Capped(rs, m)), Expand(rs))
  {
    if rs != [] {
      var r, c := rs[0], Capped(rs, m)[0].count;
      CappedSubsequence(rs[1..], m);
      assert Capped(rs, m)[1..] == Capped(rs[1..], m);
      RepeatSubsequence(r.value, c, r.count);
      SubsequenceConcat(Repeat(r.value, c), Repeat(r.value, r.count), Expand(Capped(rs[1..], m)), Expand(rs[1..]));
    }
  }

  lemma {:induction false} RepeatSubsequence<T>(v: T, m: nat, n: nat)
    requires m <= n
    ensures IsSubsequence(Repeat(v, m), Repeat(v, n))
  {
    if m > 0 {
      assert Repeat(v, m)[1..] == Repeat(v, m - 1) && Repeat(v, n)[1..] == Repeat(v, n - 1);
      RepeatSubsequence(v, m - 1, n - 1);
    }
  }

  // ---------- characters ----------

  /** How often the first character repeats at the front. */
  function RunLen(s: string): (n: nat)
    requires s != ""
    ensures 1 <= n <= |s|
  {
    if |s| > 1 && s[1] == s[0] then 1 + RunLen(s[1..]) else 1
  }

  /**
   `re.sub(r'(.)\1{3,}', r'\1', text)`: a character other than a newline, and at
   least three more of it, become one; otherwise the scan moves on by one.
   */
  function Collapse(s: string): string
    decreases |s|
  {
    if s == "" then ""
    else if s[0] != '\n' && RunLen(s) >= 4 then [s[0]] + Collapse(s[RunLen(s)..])
    else [s[0]] + Collapse(s[1..])
  }

  ghost function Collapsed(rs: seq<Run<char>>): (r: seq<Run<char>>)
    ensures |r| == |rs|
  {
    seq(|rs|, i requires 0 <= i < |rs| =>
      if rs[i].value != '\n' && rs[i].count >= 4 then Run(rs[i].value, 1) else rs[i])
  }

  lemma {:induction false} RunLenIs(v: char, n: nat, rest: string)
    requires n > 0 && (rest == "" || rest[0] != v)
    ensures RunLen(Repeat(v, n) + rest) == n
  {
    var s := Repeat(v, n) + rest;
    if n > 1 {
      assert s[1..] == Repeat(v, n - 1) + rest;
      RunLenIs(v, n - 1, rest);
    }
  }

  /** A run that is not collapsed is copied one character at a time. */
  lemma {:induction false} CopyRun(v: char, n: nat, rest: string)
    requires v == '\n' || n < 4
    requires rest == "" || rest[0] != v
    ensures Collapse(Repeat(v, n) + rest) == Repeat(v, n) + Collapse(rest)
  {
    if n == 0 {
      assert Repeat(v, n) + rest == rest && Repeat(v, n) + Collapse(rest) == Collapse(rest);
    } else {
      RunLenIs(v, n, rest);
      RepeatCons(v, n, rest);
      CopyRun(v, n - 1, rest);
      RepeatCons(v, n, Collapse(rest));
    }
  }

  lemma RepeatCons(v: char, n: nat, rest: string)
    requires n > 0
    ensures Repeat(v, n) + rest == [v] + (Repeat(v, n - 1) + rest)
    ensures (Repeat(v, n) + rest)[1..] == Repeat(v, n - 1) + rest
  {
  }

  lemma ExpandHead<T>(rs: seq<Run<T>>)
    requires Canonical(rs)
    ensures rs != [] ==> Expand(rs) != [] && Expand(rs)[0] == rs[0].value
    ensures rs == [] ==> Expand(rs) == []
  {
  }

  /** On maximal runs, the scan collapses those of four or more to one and leaves the others alone. */
  lemma {:induction false} CollapseRuns(rs: seq<Run<char>>)
    requires Canonical(rs)
    ensures Collapse(Expand(rs)) == Expand(Collapsed(rs))
  {
    if rs != [] {
      var r, rest := rs[0], Expand(rs[1..]);
      CollapseRuns(rs[1..]);
      ExpandHead(rs[1..]);
      assert rs[1..] != [] ==> rs[1..][0] == rs[1];
      assert Collapsed(rs)[1..] == Collapsed(rs[1..]);
      if r.value != '\n' && r.count >= 4 {
        RunLenIs(r.value, r.count, rest);
        assert (Repeat(r.value, r.count) + rest)[r.count..] == rest;
        assert Repeat(r.value, 1) == [r.value];
      } else {
        CopyRun(r.value, r.count, rest);
      }
    }
  }

  lemma CollapsedCanonical(rs: seq<Run<char>>)
    requires Canonical(rs)
    ensures Canonical(Collapsed(rs))
    ensures Collapsed(Collapsed(rs)) == Collapsed(rs)
    ensures forall i :: 0 <= i < |rs| ==> Collapsed(rs)[i].value == '\n' || Collapsed(rs)[i].count < 4
  {
  }

  /** The character stage is the run-wise one, on every text, and is idempotent. */
  lemma {:induction false} CollapseExact(s: string)
    ensures Collapse(s) == Expand(Collapsed(Runs(s)))
    ensures Runs(Collapse(s)) == Collapsed(Runs(s))
    ensures Collapse(Collapse(s)) == Collapse(s)
  {
    RunsExpand(s);
    CollapseRuns(Runs(s));
    CollapsedCanonical(Runs(s));
    RunsUnique(Collapsed(Runs(s)));
    CollapseRuns(Collapsed(Runs(s)));
  }

  lemma {:induction false} ShortRunsOnly(rs: seq<Run<char>>, i: nat)
    requires Canonical(rs) && i < |Expand(rs)|
    requires forall k :: 0 <= k < |rs| ==> rs[k].value == '\n' || rs[k].count < 4
    ensures Expand(rs)[i] == '\n' || RunLen(Expand(rs)[i..]) < 4
  {
    var r, rest := rs[0], Expand(rs[1..]);
    ExpandHead(rs[1..]);
    assert rs[1..] != [] ==> rs[1..][0] == rs[1];
    if i < r.count {
      assert Expand(rs)[i..] == Repeat(r.value, r.count - i) + rest;
      RunLenIs(r.value, r.count - i, rest);
    } else {
      assert Expand(rs)[i..] == rest[i - r.count..];
      ShortRunsOnly(rs[1..], i - r.count);
    }
  }

  lemma FourEqual(s: string)
    requires |s| >= 4 && s[0] == s[1] == s[2] == s[3]
    ensures RunLen(s) >= 4
  {
    var t, u, w := s[1..], s[2..], s[3..];
    assert t[0] == s[1] && t[1] == s[2] && u[0] == s[2] && u[1] == s[3];
    assert t[1..] == u && u[1..] == w;
    assert RunLen(u) == 1 + RunLen(w) && RunLen(t) == 1 + RunLen(u);
  }

  /** No four equal characters in a row are left, newlines aside. */
  lemma {:induction false} NoFourLeft(s: string, i: nat)
    requires i + 4 <= |Collapse(s)|
    requires var c := Collapse(s); c[i] == c[i + 1] == c[i + 2] == c[i + 3]
    ensures Collapse(s)[i] == '\n'
  {
    var c := Collapse(s);
    RunsExpand(s);
    CollapseExact(s);
    CollapsedCanonical(Runs(s));
    ShortRunsOnly(Collapsed(Runs(s)), i);
    assert c[i..][1] == c[i + 1] && c[i..][2] == c[i + 2] && c[i..][3] == c[i + 3];
    FourEqual(c[i..]);
  }
}
