/** The shell script written for a command by output() of src/bin/systemd-crontab-generator.cpp. */
module Scriptlet {
  import opened Basics
  import opened Tokens
  import opened Base64
  import opened Stdin
  import Text

  // ---------------------------------------------------------------- one word

  /** Escaped `%`s become `%`, the rest is kept. */
  function Depaired(s: Bytes): Bytes {
    if s == [] then []
    else if PairAt(s, 0) then ['%'] + Depaired(s[2..])
    else [s[0]] + Depaired(s[1..])
  }

  lemma DepairHead(s: Bytes)
    requires s != [] && !PairAt(s, 0)
    ensures Depaired(s) == s[..1] + Depaired(s[1..])
  {
  }

  lemma Slices(s: Bytes, p: nat)
    requires 0 < p <= |s|
    ensures s[1..][..p - 1] == s[1..p] && s[1..][p - 1..] == s[p..] && s[..p] == s[..1] + s[1..p]
  {
  }

  lemma {:induction false} DepairUpTo(s: Bytes, p: nat)
    requires p <= |s| && (forall j :: 0 <= j < p ==> !PairAt(s, j))
    ensures Depaired(s) == s[..p] + Depaired(s[p..])
  {
    if p == 0 {
      assert s[p..] == s;
    } else {
      DepairHead(s);
      PairsShifted(s, p);
      DepairUpTo(s[1..], p - 1);
      Slices(s, p);
      Regroup(s[..1], s[1..p], Depaired(s[p..]));
    }
  }

  lemma DepairedLast(cmd: Bytes)
    requires FindPair(cmd, 0) == |cmd|
    ensures Depaired(cmd) == cmd
  {
    DepairUpTo(cmd, |cmd|);
    assert cmd[..|cmd|] == cmd && cmd[|cmd|..] == [];
  }

  lemma DepairedStep(cmd: Bytes, p: nat)
    requires p == FindPair(cmd, 0) && p < |cmd|
    ensures p + 2 <= |cmd| && Depaired(cmd) == cmd[..p] + (['%'] + Depaired(cmd[p + 2..]))
  {
    DepairUpTo(cmd, p);
    assert cmd[p..][2..] == cmd[p + 2..];
  }

  /** debackslashpercentise with fwrite for a callback: the text between escaped `%`s is written
      as it is. */
  method WriteWord(out: Bytes, word: Bytes) returns (written: Bytes)
    ensures written == out + Depaired(word)
  {
    written := out;
    var cmd := word;
    while |cmd| != 0
      invariant written + Depaired(cmd) == out + Depaired(word)
      decreases |cmd|
    {
      var backpct := FindPair(cmd, 0);
      if backpct == |cmd| {
        DepairedLast(cmd);
        written := written + cmd;
        cmd := [];
      } else {
        DepairedStep(cmd, backpct);
        Regroup(written + cmd[..backpct], ['%'], Depaired(cmd[backpct + 2..]));
        Regroup(written, cmd[..backpct], ['%'] + Depaired(cmd[backpct + 2..]));
        written := written + cmd[..backpct];
        written := written + ['%'];
        cmd := cmd[backpct + 2..];
      }
    }
  }

  lemma {:induction false} NothingBare(s: Bytes)
    requires forall k: nat :: !Bare(s, k)
    ensures Depaired(s) == Unescaped(s)
  {
    if s != [] {
      assert !Bare(s, 0);
      if PairAt(s, 0) {
        forall k: nat
          ensures !Bare(s[2..], k)
        {
          assert !Bare(s, k + 2);
        }
        NothingBare(s[2..]);
      } else {
        forall k: nat
          ensures !Bare(s[1..], k)
        {
          assert !Bare(s, k + 1);
        }
        NothingBare(s[1..]);
      }
    }
  }

  /** In a word of the line without a bare `%`, one `%` is written for each escaped one, and
      nothing else changes. */
  lemma KeptWordsUnescape(line: Bytes, w: View)
    requires InText(line, w) && forall k: nat :: !BareIn(line, w, k)
    ensures Depaired(line[w.lo..w.hi]) == Unescaped(line[w.lo..w.hi])
  {
    var word := line[w.lo..w.hi];
    forall k: nat
      ensures !Bare(word, k)
    {
      assert !BareIn(line, w, w.lo + k);
      if k < |word| {
        assert word[k] == line[w.lo + k] && (k > 0 ==> word[k - 1] == line[w.lo + k - 1]);
      }
    }
    NothingBare(word);
  }

  // ---------------------------------------------------------------- all words

  function Texts(line: Bytes, words: seq<View>): (texts: seq<Bytes>)
    requires Words(line, words)
    ensures |texts| == |words| && forall n :: 0 <= n < |words| ==> texts[n] == line[words[n].lo..words[n].hi]
  {
    seq(|words|, n requires 0 <= n < |words| => line[words[n].lo..words[n].hi])
  }

  function Each(texts: seq<Bytes>, f: Bytes -> Bytes): (each: seq<Bytes>)
    ensures |each| == |texts| && forall n :: 0 <= n < |texts| ==> each[n] == f(texts[n])
  {
    seq(|texts|, n requires 0 <= n < |texts| => f(texts[n]))
  }

  /** With blanks between them, and a new-line at the end if there are any. */
  function Script(parts: seq<Bytes>): string {
    if parts == [] then [] else Text.Join(parts, ' ') + ['\n']
  }

  lemma NextWord(texts: seq<Bytes>, n: nat)
    requires n < |texts|
    ensures var kept := Text.Nonempty(texts[..n]);
            Each(Text.Nonempty(texts[..n + 1]), Depaired) ==
              Each(kept, Depaired) + if texts[n] == [] then [] else [Depaired(texts[n])]
  {
    Text.NonemptySnoc(texts[..n], texts[n]);
    assert texts[..n + 1] == texts[..n] + [texts[n]];
  }

  /** One more word, after a blank unless it is the first. */
  method AddWord(out: Bytes, ghost parts: seq<Bytes>, first: bool, text: Bytes) returns (more: Bytes)
    requires out == Text.Join(parts, ' ') && (first <==> parts == [])
    ensures more == Text.Join(parts + [Depaired(text)], ' ')
  {
    Text.JoinSnoc(parts, Depaired(text), ' ');
    more := out;
    if !first {
      more := more + [' '];
    }
    more := WriteWord(more, text);
  }

  /** The loop over the command's words. */
  method WriteScript(texts: seq<Bytes>) returns (out: Bytes)
    ensures out == Script(Each(Text.Nonempty(texts), Depaired))
  {
    out := [];
    var first := true;
    var n := 0;
    ghost var parts: seq<Bytes> := [];
    while n < |texts|
      invariant n <= |texts| && parts == Each(Text.Nonempty(texts[..n]), Depaired)
      invariant out == Text.Join(parts, ' ') && (first <==> parts == [])
    {
      NextWord(texts, n);
      if texts[n] != [] {
        out := AddWord(out, parts, first, texts[n]);
        first := false;
        parts := parts + [Depaired(texts[n])];
      }
      n := n + 1;
    }
    assert texts[..n] == texts;
    if !first {
      out := out + ['\n'];
    }
  }

  // ---------------------------------------------------------------- the home directory

  /** decode_command: for a user with a home directory, `~/` at the front of the first word. */
  predicate AtHome(word: Bytes, home: Option<Bytes>) {
    home.Some? && |word| >= 2 && word[0] == '~' && word[1] == '/'
  }

  function Expanded(texts: seq<Bytes>, home: Option<Bytes>): seq<Bytes> {
    if texts != [] && AtHome(texts[0], home) then [home.value + texts[0][1..]] + texts[1..] else texts
  }

  lemma {:induction false} DepairedAppend(a: Bytes, b: Bytes)
    requires b == [] || b[0] != '%'
    ensures Depaired(a + b) == Depaired(a) + Depaired(b)
    decreases |a|
  {
    if a == [] {
      assert a + b == b;
    } else if PairAt(a + b, 0) {
      assert PairAt(a, 0) && (a + b)[2..] == a[2..] + b;
      DepairedAppend(a[2..], b);
      Regroup(['%'], Depaired(a[2..]), Depaired(b));
    } else {
      assert (a + b)[1..] == a[1..] + b && (a + b)[0] == a[0] && !PairAt(a, 0);
      DepairedAppend(a[1..], b);
      Regroup([a[0]], Depaired(a[1..]), Depaired(b));
    }
  }

  /** A word as it is promised to be written: unescaped, with the home directory as it is written
      itself. */
  function Written(word: Bytes, first: bool, home: Option<Bytes>): Bytes {
    if first && home.Some? && "~/" <= word then Depaired(home.value) + Unescaped(word[1..]) else Unescaped(word)
  }

  lemma AtHomeIs(word: Bytes, home: Option<Bytes>)
    ensures AtHome(word, home) <==> home.Some? && "~/" <= word
  {
    assert "~/" <= word <==> |word| >= 2 && word[0] == '~' && word[1] == '/';
  }

  lemma HomeWritten(line: Bytes, w: View, home: Option<Bytes>)
    requires InText(line, w) && (forall k: nat :: !BareIn(line, w, k)) && AtHome(line[w.lo..w.hi], home)
    ensures Depaired(home.value + line[w.lo..w.hi][1..]) == Written(line[w.lo..w.hi], true, home)
  {
    var rest := View(w.lo + 1, w.hi);
    AtHomeIs(line[w.lo..w.hi], home);
    assert line[w.lo..w.hi][1..] == line[rest.lo..rest.hi];
    assert line[w.lo + 1] == line[w.lo..w.hi][1] == '/';
    forall k: nat
      ensures !BareIn(line, rest, k)
    {
      assert !BareIn(line, w, k);
    }
    KeptWordsUnescape(line, rest);
    DepairedAppend(home.value, line[w.lo..w.hi][1..]);
  }

  /** All words, the empty ones left out. */
  function AllWritten(texts: seq<Bytes>, home: Option<Bytes>): seq<Bytes> {
    if texts == [] then []
    else (if texts[0] == [] then [] else [Written(texts[0], true, home)]) + Each(Text.Nonempty(texts[1..]), Unescaped)
  }

  lemma KeptTexts(line: Bytes, words: seq<View>)
    requires Words(line, words) && forall n, k :: 0 <= n < |words| ==> !BareIn(line, words[n], k)
    ensures forall text :: text in Text.Nonempty(Texts(line, words)) ==> Depaired(text) == Unescaped(text)
  {
    var texts := Texts(line, words);
    forall text | text in Text.Nonempty(texts)
      ensures Depaired(text) == Unescaped(text)
    {
      var n :| 0 <= n < |texts| && texts[n] == text;
      KeptWordsUnescape(line, words[n]);
    }
  }

  lemma RestWritten(line: Bytes, words: seq<View>)
    requires Words(line, words) && forall n, k :: 0 <= n < |words| ==> !BareIn(line, words[n], k)
    ensures Each(Text.Nonempty(Texts(line, words)), Depaired) == Each(Text.Nonempty(Texts(line, words)), Unescaped)
  {
    KeptTexts(line, words);
    var kept := Text.Nonempty(Texts(line, words));
    assert forall n :: 0 <= n < |kept| ==> kept[n] in kept;
  }

  lemma EachOf(first: Bytes, rest: seq<Bytes>, f: Bytes -> Bytes)
    ensures Each([first] + rest, f) == [f(first)] + Each(rest, f)
  {
  }

  lemma EachCons(first: Bytes, rest: seq<Bytes>)
    requires first != []
    ensures Each(Text.Nonempty([first] + rest), Depaired) == [Depaired(first)] + Each(Text.Nonempty(rest), Depaired)
  {
    Text.NonemptyCons(first, rest);
    EachOf(first, Text.Nonempty(rest), Depaired);
  }

  lemma EmptyCons(rest: seq<Bytes>)
    ensures Each(Text.Nonempty([[]] + rest), Depaired) == Each(Text.Nonempty(rest), Depaired)
  {
    var texts: seq<Bytes> := [[]] + rest;
    assert texts[1..] == rest;
  }

  lemma FirstWritten(line: Bytes, words: seq<View>, home: Option<Bytes>)
    requires Words(line, words) && words != [] && forall n, k :: 0 <= n < |words| ==> !BareIn(line, words[n], k)
    requires Texts(line, words)[0] != []
    ensures var first := Texts(line, words)[0];
            Depaired(if AtHome(first, home) then home.value + first[1..] else first) == Written(first, true, home)
  {
    AtHomeIs(Texts(line, words)[0], home);
    if AtHome(Texts(line, words)[0], home) {
      HomeWritten(line, words[0], home);
    } else {
      KeptWordsUnescape(line, words[0]);
    }
  }

  /** The words of the line, once expanded, are written as promised. */
  lemma ExpandedWritten(line: Bytes, words: seq<View>, home: Option<Bytes>)
    requires Words(line, words) && forall n, k :: 0 <= n < |words| ==> !BareIn(line, words[n], k)
    ensures Each(Text.Nonempty(Expanded(Texts(line, words), home)), Depaired) == AllWritten(Texts(line, words), home)
  {
    var texts := Texts(line, words);
    if texts != [] {
      var rest := Texts(line, words[1..]);
      assert texts[1..] == rest;
      RestWritten(line, words[1..]);
      var first := if AtHome(texts[0], home) then home.value + texts[0][1..] else texts[0];
      assert Expanded(texts, home) == [first] + rest;
      if texts[0] == [] {
        EmptyCons(rest);
      } else {
        FirstWritten(line, words, home);
        EachCons(first, rest);
      }
    }
  }

  /** From the line to its script: the words of the command up to its first unescaped `%`, each
      unescaped, with a `~/` at the front expanded. */
  method ScriptOf(line: Bytes, fields: nat, home: Option<Bytes>) returns (out: Bytes, words: seq<View>, at: nat)
    requires fields < |Runs(line, " \t\n", 0)|
    ensures CutAt(line, Runs(line, " \t\n", 0)[fields].lo, at)
    ensures if at < |line| then KeptUpTo(Runs(line, " \t\n", 0)[fields..], words, at)
            else words == Runs(line, " \t\n", 0)[fields..]
    ensures Words(line, words)
    ensures var parts := AllWritten(Texts(line, words), home); out == if parts == [] then [] else Text.Join(parts, ' ') + "\n"
  {
    var data;
    words, at, data := CommandAndInput(line, fields);
    out := WriteScript(Expanded(Texts(line, words), home));
    ExpandedWritten(line, words, home);
  }
}
