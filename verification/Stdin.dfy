/** The command part of a crontab line in src/bin/systemd-crontab-generator.cpp: split at the
    first unescaped `%`, unescape, and hand the second half to the job's standard input. */
module Stdin {
  import opened Basics
  import opened Tokens
  import opened Base64
  import Text

  const BLANKS := " \t\n"

  /** A `%` that no backslash directly precedes. */
  predicate Bare(line: Bytes, k: nat) {
    k < |line| && line[k] == '%' && (k == 0 || line[k - 1] != '\\')
  }

  /** The same, as seen from inside one word. */
  predicate BareIn(line: Bytes, w: View, k: nat) {
    w.lo <= k < w.hi <= |line| && line[k] == '%' && (k == w.lo || line[k - 1] != '\\')
  }

  /** What crontab(5) promises: `\%` stands for `%`, any other `%` for a new-line. */
  function Unescaped(s: Bytes): Bytes {
    if s == [] then []
    else if |s| >= 2 && s[0] == '\\' && s[1] == '%' then ['%'] + Unescaped(s[2..])
    else (if s[0] == '%' then ['\n'] else [s[0]]) + Unescaped(s[1..])
  }

  /** How to write a text after the `%`: `%` for a new-line, `\%` for a `%`. */
  function Escaped(t: Bytes): Bytes {
    if t == [] then []
    else (if t[0] == '%' then ['\\', '%'] else if t[0] == '\n' then ['%'] else [t[0]]) + Escaped(t[1..])
  }

  predicate BackslashNewline(t: Bytes, k: nat) {
    k + 1 < |t| && t[k] == '\\' && t[k + 1] == '\n'
  }

  lemma EscapedBegins(t: Bytes)
    ensures (Escaped(t) != [] && Escaped(t)[0] == '%') <==> (t != [] && t[0] == '\n')
  {
  }

  lemma EscapedStep(t: Bytes)
    requires t != [] && !BackslashNewline(t, 0)
    ensures Unescaped(Escaped(t)) == [t[0]] + Unescaped(Escaped(t[1..]))
  {
    EscapedBegins(t[1..]);
    var s, rest := Escaped(t), Escaped(t[1..]);
    if t[0] == '%' {
      assert s[2..] == rest;
    } else {
      assert s[1..] == rest;
    }
  }

  lemma {:induction false} EscapedUnescapes(t: Bytes)
    requires forall k: nat :: !BackslashNewline(t, k)
    ensures Unescaped(Escaped(t)) == t && '\n' !in Escaped(t)
  {
    if t != [] {
      assert !BackslashNewline(t, 0);
      forall k: nat
        ensures !BackslashNewline(t[1..], k)
      {
        assert !BackslashNewline(t, k + 1);
      }
      EscapedUnescapes(t[1..]);
      EscapedStep(t);
    }
  }

  lemma UnescapedBegins(s: Bytes)
    requires '\n' !in s
    ensures (Unescaped(s) != [] && Unescaped(s)[0] == '\n') <==> (s != [] && s[0] == '%')
  {
  }

  lemma {:induction false} NeverBackslashNewline(s: Bytes, k: nat)
    requires '\n' !in s
    ensures !BackslashNewline(Unescaped(s), k)
  {
    if s != [] {
      var n := if PairAt(s, 0) then 2 else 1;
      var t := Unescaped(s);
      assert t[1..] == Unescaped(s[n..]);
      if k > 0 {
        NeverBackslashNewline(s[n..], k - 1);
        assert !BackslashNewline(t[1..], k - 1);
      } else {
        UnescapedBegins(s[n..]);
      }
    }
  }

  /** What a job can be given on its standard input: every text in which no backslash comes just
      before a new-line, and no other. */
  lemma InputsThatCanBeGiven(t: Bytes)
    ensures (exists s :: '\n' !in s && Unescaped(s) == t) <==> forall k: nat :: !BackslashNewline(t, k)
  {
    if s :| '\n' !in s && Unescaped(s) == t {
      forall k: nat
        ensures !BackslashNewline(t, k)
      {
        NeverBackslashNewline(s, k);
      }
    }
    if forall k: nat :: !BackslashNewline(t, k) {
      EscapedUnescapes(t);
    }
  }

  predicate Words(line: Bytes, words: seq<View>) {
    forall n :: 0 <= n < |words| ==> InText(line, words[n])
  }

  predicate PairAt(s: Bytes, k: nat) {
    k + 1 < |s| && s[k] == '\\' && s[k + 1] == '%'
  }

  /** find("\\%"): the length if there is none. */
  function FindPair(s: Bytes, from: nat): (k: nat)
    requires from <= |s|
    ensures from <= k <= |s| && (k < |s| ==> PairAt(s, k))
    ensures forall j :: from <= j < k ==> !PairAt(s, j)
    decreases |s| - from
  {
    if from == |s| || PairAt(s, from) then from else FindPair(s, from + 1)
  }

  function Newlines(s: Bytes): Bytes {
    seq(|s|, i requires 0 <= i < |s| => if s[i] == '%' then '\n' else s[i])
  }

  lemma NewlinesAppend(a: Bytes, b: Bytes)
    ensures Newlines(a + b) == Newlines(a) + Newlines(b)
  {
  }

  lemma UnescapeHead(s: Bytes)
    requires s != [] && !PairAt(s, 0)
    ensures Unescaped(s) == Newlines(s[..1]) + Unescaped(s[1..])
  {
  }

  lemma PairsShifted(s: Bytes, p: nat)
    requires 0 < p <= |s| && (forall j :: 0 <= j < p ==> !PairAt(s, j))
    ensures forall j :: 0 <= j < p - 1 ==> !PairAt(s[1..], j)
  {
    forall j | 0 <= j < p - 1
      ensures !PairAt(s[1..], j)
    {
      assert !PairAt(s, j + 1);
    }
  }

  /** Segment by segment is character by character: up to the leftmost pair. */
  lemma {:induction false} UnescapeUpTo(s: Bytes, p: nat)
    requires p <= |s| && (forall j :: 0 <= j < p ==> !PairAt(s, j))
    ensures Unescaped(s) == Newlines(s[..p]) + Unescaped(s[p..])
  {
    if p == 0 {
      assert s[p..] == s;
    } else {
      UnescapeHead(s);
      PairsShifted(s, p);
      UnescapeUpTo(s[1..], p - 1);
      assert s[1..][..p - 1] == s[1..p] && s[1..][p - 1..] == s[p..] && s[..p] == s[..1] + s[1..p];
      NewlinesAppend(s[..1], s[1..p]);
      Regroup(Newlines(s[..1]), Newlines(s[1..p]), Unescaped(s[p..]));
    }
  }

  lemma FlattenSnoc(pieces: seq<Bytes>, piece: Bytes)
    ensures Flatten(pieces + [piece]) == Flatten(pieces) + piece
  {
    assert (pieces + [piece])[..|pieces|] == pieces;
  }

  /** One `%` of a segment, fed as the text before it and a new-line. */
  lemma FeedOne(pieces: seq<Bytes>, rest: Bytes, pct: nat)
    requires pct == Text.FindFrom(rest, '%', 0) && pct < |rest|
    ensures Flatten(pieces + [rest[..pct]] + [['\n']]) + Newlines(rest[pct + 1..]) == Flatten(pieces) + Newlines(rest)
  {
    assert Newlines(rest) == rest[..pct] + ['\n'] + Newlines(rest[pct + 1..]);
    FlattenSnoc(pieces, rest[..pct]);
    FlattenSnoc(pieces + [rest[..pct]], ['\n']);
  }

  lemma NoPercent(rest: Bytes)
    requires Text.FindFrom(rest, '%', 0) == |rest|
    ensures Newlines(rest) == rest
  {
  }

  /** The callback of generate_service: feed a segment, its `%` turned into new-lines. The feeds
      made so far are collected in order. */
  method FeedSegment(fed: seq<Bytes>, segment: Bytes, replacePercent: bool) returns (pieces: seq<Bytes>)
    ensures Flatten(pieces) == Flatten(fed) + if replacePercent then Newlines(segment) else segment
  {
    pieces := fed;
    var rest := segment;
    if replacePercent {
      var pct := Text.FindFrom(rest, '%', 0);
      while pct != |rest|
        invariant pct == Text.FindFrom(rest, '%', 0)
        invariant Flatten(pieces) + Newlines(rest) == Flatten(fed) + Newlines(segment)
        decreases |rest|
      {
        FeedOne(pieces, rest, pct);
        pieces := pieces + [rest[..pct]] + [['\n']];
        rest := rest[pct + 1..];
        pct := Text.FindFrom(rest, '%', 0);
      }
      NoPercent(rest);
    }
    FlattenSnoc(pieces, rest);
    pieces := pieces + [rest];
  }

  lemma UnescapedLast(cmd: Bytes)
    requires FindPair(cmd, 0) == |cmd|
    ensures Unescaped(cmd) == Newlines(cmd)
  {
    UnescapeUpTo(cmd, |cmd|);
    assert cmd[..|cmd|] == cmd && cmd[|cmd|..] == [];
  }

  lemma UnescapedStep(cmd: Bytes, p: nat)
    requires p == FindPair(cmd, 0) && p < |cmd|
    ensures p + 2 <= |cmd| && Unescaped(cmd) == Newlines(cmd[..p]) + (['%'] + Unescaped(cmd[p + 2..]))
  {
    UnescapeUpTo(cmd, p);
    assert cmd[p..][2..] == cmd[p + 2..];
  }

  /** debackslashpercentise with that callback: all of the text, unescaped, is fed. */
  method FeedUnescaped(text: Bytes) returns (pieces: seq<Bytes>)
    ensures Flatten(pieces) == Unescaped(text)
  {
    pieces := [];
    var cmd := text;
    while |cmd| != 0
      invariant Flatten(pieces) + Unescaped(cmd) == Unescaped(text)
      decreases |cmd|
    {
      ghost var before := Flatten(pieces);
      var backpct := FindPair(cmd, 0);
      if backpct == |cmd| {
        UnescapedLast(cmd);
        pieces := FeedSegment(pieces, cmd, true);
        cmd := [];
      } else {
        UnescapedStep(cmd, backpct);
        Regroup(before + Newlines(cmd[..backpct]), ['%'], Unescaped(cmd[backpct + 2..]));
        Regroup(before, Newlines(cmd[..backpct]), ['%'] + Unescaped(cmd[backpct + 2..]));
        pieces := FeedSegment(pieces, cmd[..backpct], true);
        pieces := FeedSegment(pieces, ['%'], false);
        cmd := cmd[backpct + 2..];
      }
    }
  }

  lemma NoneBeyond(line: Bytes, w: View, cur: nat)
    requires InText(line, w) && cur <= w.hi - w.lo
    requires forall j :: cur <= j < w.hi - w.lo ==> line[w.lo..w.hi][j] != '%'
    requires forall k: nat :: k < w.lo + cur ==> !BareIn(line, w, k)
    ensures forall k: nat :: !BareIn(line, w, k)
  {
    assert forall k: nat :: w.lo + cur <= k < w.hi ==> line[w.lo..w.hi][k - w.lo] == line[k];
  }

  lemma NoneBefore(line: Bytes, w: View, cur: nat, at: nat)
    requires InText(line, w) && w.lo + cur <= at < w.hi
    requires forall j :: cur <= j < at - w.lo ==> line[w.lo..w.hi][j] != '%'
    requires forall k: nat :: k < w.lo + cur ==> !BareIn(line, w, k)
    ensures forall k: nat :: !BareIn(line, View(w.lo, at), k)
  {
    assert forall k: nat :: w.lo + cur <= k < at ==> line[w.lo..w.hi][k - w.lo] == line[k];
    assert forall k: nat :: BareIn(line, View(w.lo, at), k) ==> BareIn(line, w, k);
  }

  /** A `%` after a backslash, the next one from `cur` on, leaves none bare before itself. */
  lemma EscapedOne(line: Bytes, w: View, cur: nat, percent: nat)
    requires InText(line, w) && cur <= percent < w.hi - w.lo
    requires forall j :: cur <= j < percent ==> line[w.lo..w.hi][j] != '%'
    requires 0 < percent && line[w.lo..w.hi][percent - 1] == '\\'
    requires forall k: nat :: k < w.lo + cur ==> !BareIn(line, w, k)
    ensures forall k: nat :: k < w.lo + percent + 1 ==> !BareIn(line, w, k)
  {
    assert line[w.lo + percent - 1] == '\\';
    forall k: nat | w.lo + cur <= k < w.lo + percent
      ensures line[k] != '%'
    {
      assert line[k] == line[w.lo..w.hi][k - w.lo];
    }
  }

  /** The inner loop of parse_percent: a word's first unescaped `%`, or its end. */
  method FindBare(line: Bytes, w: View) returns (at: nat)
    requires InText(line, w)
    ensures w.lo <= at <= w.hi && (at < w.hi ==> BareIn(line, w, at))
    ensures forall k: nat :: !BareIn(line, View(w.lo, at), k)
  {
    var word := line[w.lo..w.hi];
    var cur := 0;
    var percent := Text.FindFrom(word, '%', cur);
    while percent != |word|
      invariant cur <= |word| && percent == Text.FindFrom(word, '%', cur)
      invariant forall k: nat :: k < w.lo + cur ==> !BareIn(line, w, k)
      decreases |word| - cur
    {
      if percent == 0 || word[percent - 1] != '\\' {
        at := w.lo + percent;
        NoneBefore(line, w, cur, at);
        return;
      }
      EscapedOne(line, w, cur, percent);
      cur := percent + 1;
      percent := Text.FindFrom(word, '%', cur);
    }
    NoneBeyond(line, w, cur);
    at := w.hi;
  }

  /** The command of a crontab job: its words, and what goes to standard input. */
  class Command {
    const line: Bytes
    var words: seq<View>
    var input: View

    constructor (line: Bytes, words: seq<View>)
      requires Words(line, words)
      ensures this.line == line && this.words == words && input == View(0, 0)
    {
      this.line, this.words, this.input := line, words, View(0, 0);
    }

    /** parse_percent: cut the command at the first unescaped `%`, returned as `at` (the length
        of the line if there is none); the input is everything after it. */
    method ParsePercent() returns (at: nat)
      requires Words(line, words) && input == View(0, 0)
      modifies this
      ensures Words(line, words) && at <= |line|
      ensures at == |line| ==>
                && words == old(words) && input == View(0, 0)
                && forall n, k :: 0 <= n < |words| ==> !BareIn(line, words[n], k)
      ensures at < |line| ==>
                && 0 < |words| <= |old(words)|
                && input == View(at + 1, |line|)
                && BareIn(line, old(words)[|words| - 1], at)
                && words == old(words)[..|words| - 1] + [View(old(words)[|words| - 1].lo, at)]
                && forall n, k :: 0 <= n < |words| ==> !BareIn(line, words[n], k)
    {
      var itr := 0;
      while itr < |words|
        invariant itr <= |words| && words == old(words) && input == View(0, 0)
        invariant forall n, k :: 0 <= n < itr ==> !BareIn(line, words[n], k)
      {
        var w := words[itr];
        at := FindBare(line, w);
        if at < w.hi {
          input := View(at + 1, |line|);
          words := words[..itr] + [View(w.lo, at)];
          return;
        }
        itr := itr + 1;
      }
      at := |line|;
    }

    /** The StandardInputData= line of generate_service; empty if there is none. */
    method StandardInputData() returns (text: string)
      requires InText(line, input)
      ensures Decode(text) == Some(Unescaped(line[input.lo..input.hi]))
    {
      var pieces := [];
      if input.lo != input.hi {
        pieces := FeedUnescaped(line[input.lo..input.hi]);
      }
      text := EncodePieces(pieces);
    }
  }

  // ---------------------------------------------------------------- what that means for the line

  predicate BareInWords(line: Bytes, words: seq<View>, k: nat) {
    exists n :: 0 <= n < |words| && BareIn(line, words[n], k)
  }

  lemma BareInWordIsBare(line: Bytes, w: View, k: nat)
    requires MaximalRun(line, BLANKS, 0, w) && w.lo <= k < w.hi
    ensures BareIn(line, w, k) <==> Bare(line, k)
  {
    assert w.lo > 0 ==> line[w.lo - 1] != '\\';
  }

  lemma BareHasWord(line: Bytes, first: nat, k: nat) returns (n: nat)
    requires first < |Runs(line, BLANKS, 0)| && Runs(line, BLANKS, 0)[first].lo <= k && Bare(line, k)
    ensures first <= n < |Runs(line, BLANKS, 0)| && BareIn(line, Runs(line, BLANKS, 0)[n], k)
  {
    var tokens := Runs(line, BLANKS, 0);
    RunsTokenise(line, BLANKS, 0);
    assert line[k] !in BLANKS && Covered(tokens, k);
    n :| 0 <= n < |tokens| && tokens[n].lo <= k < tokens[n].hi;
    assert MaximalRun(line, BLANKS, 0, tokens[n]);
    assert forall m :: 0 <= m < first ==> tokens[m].hi < tokens[first].lo;
    BareInWordIsBare(line, tokens[n], k);
  }

  lemma WordBeginsLater(line: Bytes, first: nat, n: nat)
    requires first <= n < |Runs(line, BLANKS, 0)|
    ensures var tokens := Runs(line, BLANKS, 0); tokens[first].lo <= tokens[n].lo && MaximalRun(line, BLANKS, 0, tokens[n])
  {
    var tokens := Runs(line, BLANKS, 0);
    RunsTokenise(line, BLANKS, 0);
    assert MaximalRun(line, BLANKS, 0, tokens[first]) && MaximalRun(line, BLANKS, 0, tokens[n]);
    assert first < n ==> tokens[first].hi < tokens[n].lo;
  }

  /** Word by word is character by character: a `%` is bare in some word from the n-th on just
      if it is bare in the line, from where that word begins. */
  lemma BareInWordsIsBare(line: Bytes, first: nat, k: nat)
    requires first < |Runs(line, BLANKS, 0)|
    ensures var words := Runs(line, BLANKS, 0)[first..];
            BareInWords(line, words, k) <==> words[0].lo <= k && Bare(line, k)
  {
    var tokens := Runs(line, BLANKS, 0);
    var words := tokens[first..];
    if BareInWords(line, words, k) {
      var n :| 0 <= n < |words| && BareIn(line, words[n], k);
      WordBeginsLater(line, first, first + n);
      BareInWordIsBare(line, tokens[first + n], k);
    }
    if words[0].lo <= k && Bare(line, k) {
      var n := BareHasWord(line, first, k);
      assert BareIn(line, words[n - first], k);
    }
  }

  /** Where the command, beginning at a position, is cut: the first `%` that no backslash directly
      precedes, or the end. */
  predicate CutAt(line: Bytes, from: nat, at: nat) {
    && from <= at <= |line|
    && (at < |line| ==> line[at] == '%' && (at == 0 || line[at - 1] != '\\'))
    && forall k :: from <= k < at && line[k] == '%' ==> k > 0 && line[k - 1] == '\\'
  }

  /** What a cut leaves of the words: those before the last, and the last up to the cut. */
  predicate KeptUpTo(words: seq<View>, kept: seq<View>, at: nat) {
    && 0 < |kept| <= |words|
    && words[|kept| - 1].lo <= at < words[|kept| - 1].hi
    && kept == words[..|kept| - 1] + [View(words[|kept| - 1].lo, at)]
  }

  /** A position before the cut lies in a kept word, or in the kept part of the last. */
  lemma EarlierIsKept(line: Bytes, first: nat, kept: seq<View>, at: nat, n: nat, k: nat)
    requires first < |Runs(line, BLANKS, 0)| && KeptUpTo(Runs(line, BLANKS, 0)[first..], kept, at)
    requires n < |Runs(line, BLANKS, 0)| - first && BareIn(line, Runs(line, BLANKS, 0)[first + n], k) && k < at
    ensures n < |kept| && BareIn(line, kept[n], k)
  {
    var tokens := Runs(line, BLANKS, 0);
    var last := |kept| - 1;
    RunsTokenise(line, BLANKS, 0);
    assert tokens[first..][last] == tokens[first + last];
    assert n < last ==> kept[n] == tokens[first..][n] == tokens[first + n];
  }

  lemma CutIsFirst(line: Bytes, first: nat, kept: seq<View>, at: nat)
    requires first < |Runs(line, BLANKS, 0)| && at <= |line|
    requires forall n, k :: 0 <= n < |kept| ==> !BareIn(line, kept[n], k)
    requires if at < |line|
             then KeptUpTo(Runs(line, BLANKS, 0)[first..], kept, at) && BareInWords(line, Runs(line, BLANKS, 0)[first..], at)
             else kept == Runs(line, BLANKS, 0)[first..]
    ensures CutAt(line, Runs(line, BLANKS, 0)[first].lo, at)
  {
    var tokens := Runs(line, BLANKS, 0);
    var words := tokens[first..];
    RunsTokenise(line, BLANKS, 0);
    assert MaximalRun(line, BLANKS, 0, tokens[first]);
    if at < |line| {
      BareInWordsIsBare(line, first, at);
    }
    forall k: nat | words[0].lo <= k < at
      ensures !Bare(line, k)
    {
      BareInWordsIsBare(line, first, k);
      forall n | 0 <= n < |words|
        ensures !BareIn(line, words[n], k)
      {
        if at < |line| && BareIn(line, words[n], k) {
          EarlierIsKept(line, first, kept, at, n, k);
        }
      }
    }
    CutAtBare(line, words[0].lo, at);
  }

  lemma CutAtBare(line: Bytes, from: nat, at: nat)
    requires from <= at <= |line| && (at < |line| ==> Bare(line, at)) && forall k: nat :: from <= k < at ==> !Bare(line, k)
    ensures CutAt(line, from, at)
  {
    forall k | from <= k < at && line[k] == '%'
      ensures k > 0 && line[k - 1] == '\\'
    {
      assert !Bare(line, k);
    }
  }

  /** Tokenise a line with `first` leading fields, and cut what is left at the first `%` of the
      command that is not escaped. */
  method SplitLine(line: Bytes, first: nat) returns (c: Command, at: nat)
    requires first < |Runs(line, BLANKS, 0)|
    ensures c.line == line && at <= |line| && c.input == if at < |line| then View(at + 1, |line|) else View(0, 0)
    ensures if at < |line| then KeptUpTo(Runs(line, BLANKS, 0)[first..], c.words, at)
                                && BareInWords(line, Runs(line, BLANKS, 0)[first..], at)
            else c.words == Runs(line, BLANKS, 0)[first..]
    ensures Words(line, c.words) && forall n, k :: 0 <= n < |c.words| ==> !BareIn(line, c.words[n], k)
  {
    var tokens := Tokenise(line, BLANKS);
    assert forall n :: 0 <= n < |tokens| ==> MaximalRun(line, BLANKS, 0, tokens[n]);
    c := new Command(line, tokens[first..]);
    at := c.ParsePercent();
  }

  /** The command part of a line down to its standard input: the cut is at the first unescaped
      `%` of the command, decoding the StandardInputData= text gives everything after it,
      unescaped, and no `%` left in the command is bare. */
  method CommandAndInput(line: Bytes, first: nat) returns (words: seq<View>, at: nat, data: string)
    requires first < |Runs(line, " \t\n", 0)|
    ensures CutAt(line, Runs(line, " \t\n", 0)[first].lo, at)
    ensures Decode(data) == Some(Unescaped(if at < |line| then line[at + 1..] else []))
    ensures if at < |line| then KeptUpTo(Runs(line, " \t\n", 0)[first..], words, at)
            else words == Runs(line, " \t\n", 0)[first..]
    ensures Words(line, words) && forall n, k :: 0 <= n < |words| ==> !BareIn(line, words[n], k)
  {
    assert BLANKS == " \t\n";
    var c;
    c, at := SplitLine(line, first);
    words := c.words;
    CutIsFirst(line, first, words, at);
    data := c.StandardInputData();
    assert at < |line| ==> line[at + 1..|line|] == line[at + 1..];
  }
}
