/** How a crontab line appears in its unit: describe_line and the LogExtraFields= quoting of
    src/bin/systemd-crontab-generator.cpp. */
module Description {
  import opened Basics
  import opened Tokens

  /** What mbrlen(3) finds at the front of some bytes, from the initial shift state. */
  datatype Front = Whole(n: nat) | Nul | Invalid | Incomplete

  /** As in UTF-8, the byte `%` is always a character by itself. */
  ghost predicate PercentAlone(mbrlen: string -> Front) {
    forall s :: s != [] && mbrlen(s).Whole? ==>
      (s[0] == '%' ==> Size(s, mbrlen) == 1) && forall i :: 1 <= i < Size(s, mbrlen) ==> s[i] != '%'
  }

  function HexDigit(v: nat): char
    requires v < 16
  {
    if v < 10 then ('0' as int + v) as char else ('a' as int + v - 10) as char
  }

  /** sprintf("\\x%02hhx"). */
  function Hex(b: char): string {
    ['\\', 'x', HexDigit(b as int % 256 / 16), HexDigit(b as int % 16)]
  }

  function HexAll(s: string): string {
    if s == [] then [] else HexAll(s[..|s| - 1]) + Hex(s[|s| - 1])
  }

  lemma HexIsPlain(b: char)
    ensures '%' !in Hex(b)
  {
  }

  lemma {:induction false} HexAllIsPlain(s: string)
    ensures |HexAll(s)| == 4 * |s| && '%' !in HexAll(s)
  {
    if s != [] {
      HexAllIsPlain(s[..|s| - 1]);
      HexIsPlain(s[|s| - 1]);
    }
  }

  /** The value of a hexadecimal digit. */
  function HexValue(c: char): int {
    if '0' <= c <= '9' then c as int - '0' as int else c as int - 'a' as int + 10
  }

  /** Bytes back from `\xHH` after `\xHH`. */
  function Unhexed(s: string): seq<int> {
    if |s| < 4 then [] else Unhexed(s[..|s| - 4]) + [HexValue(s[|s| - 2]) * 16 + HexValue(s[|s| - 1])]
  }

  lemma HexReads(b: char)
    requires b as int < 256
    ensures Hex(b)[..2] == "\\x" && HexValue(Hex(b)[2]) * 16 + HexValue(Hex(b)[3]) == b as int
  {
  }

  lemma UnhexedSnoc(front: string, hex: string)
    requires |hex| == 4
    ensures Unhexed(front + hex) == Unhexed(front) + [HexValue(hex[2]) * 16 + HexValue(hex[3])]
  {
    assert (front + hex)[..|front + hex| - 4] == front;
  }

  lemma HexAllSnoc(s: string, b: char)
    ensures HexAll(s + [b]) == HexAll(s) + Hex(b)
  {
    assert (s + [b])[..|s|] == s;
  }

  /** Two hexadecimal digits are written for each byte, the higher one first. */
  lemma {:induction false} UnhexedHexAll(s: string)
    requires forall i :: 0 <= i < |s| ==> s[i] as int < 256
    ensures |Unhexed(HexAll(s))| == |s| && forall i :: 0 <= i < |s| ==> Unhexed(HexAll(s))[i] == s[i] as int
  {
    if s != [] {
      var less, b := s[..|s| - 1], s[|s| - 1];
      UnhexedHexAll(less);
      UnhexedMore(less, b);
      assert s == less + [b];
    }
  }

  lemma UnhexedMore(s: string, b: char)
    requires b as int < 256
    ensures Unhexed(HexAll(s + [b])) == Unhexed(HexAll(s)) + [b as int]
  {
    HexReads(b);
    HexAllSnoc(s, b);
    UnhexedSnoc(HexAll(s), Hex(b));
  }

  /** How many bytes are dealt with at once: a character, a byte that is none, or the rest. The
      count of a whole character is always within the bytes given; any other is read as one. */
  function Size(s: string, mbrlen: string -> Front): (n: nat)
    requires s != []
    ensures 1 <= n <= |s|
  {
    match mbrlen(s)
    case Whole(n) => if 1 <= n <= |s| then n else 1
    case Incomplete => |s|
    case _ => 1
  }

  /** And what is written for them: text as it is, but `%` doubled, the rest in hexadecimal. */
  function Piece(s: string, mbrlen: string -> Front): string
    requires s != []
  {
    if !mbrlen(s).Whole? then HexAll(s[..Size(s, mbrlen)])
    else if s[0] == '%' then "%%"
    else s[..Size(s, mbrlen)]
  }

  /** Character by character. */
  function Escaped(s: string, mbrlen: string -> Front): string
    decreases |s|
  {
    if s == [] then [] else Piece(s, mbrlen) + Escaped(s[Size(s, mbrlen)..], mbrlen)
  }

  function Emplaced(escaped: Option<string>, line: string, k: nat): string
    requires k <= |line|
  {
    if escaped.Some? then escaped.value else line[..k]
  }

  method AppendHex(s: string, bytes: string) returns (r: string)
    ensures r == s + HexAll(bytes)
  {
    r := s;
    var n := 0;
    while n < |bytes|
      invariant n <= |bytes| && r == s + HexAll(bytes[..n])
    {
      assert bytes[..n + 1][..n] == bytes[..n];
      r := r + Hex(bytes[n]);
      n := n + 1;
    }
    assert bytes[..n] == bytes;
  }

  /** One character's worth of describe_line: a copy is made when the first needs escaping. */
  method Append(escaped: Option<string>, line: string, k: nat, mbrlen: string -> Front) returns (more: Option<string>, n: nat)
    requires k < |line|
    ensures n == Size(line[k..], mbrlen)
    ensures Emplaced(more, line, k + n) == Emplaced(escaped, line, k) + Piece(line[k..], mbrlen)
  {
    var desc := line[k..];
    n := Size(desc, mbrlen);
    if !mbrlen(desc).Whole? {
      var hexed := AppendHex(Emplaced(escaped, line, k), desc[..n]);
      more := Some(hexed);
    } else if desc[0] == '%' {
      more := Some(Emplaced(escaped, line, k) + "%%");
    } else if escaped.Some? {
      more := Some(escaped.value + desc[..n]);
    } else {
      more := None;
      assert line[..k + n] == line[..k] + desc[..n];
    }
  }

  /** The escaped rest of a line, written after what is done. */
  ghost function Onto(done: string, rest: string, mbrlen: string -> Front): string
    decreases |rest|
  {
    if rest == [] then done else Onto(done + Piece(rest, mbrlen), rest[Size(rest, mbrlen)..], mbrlen)
  }

  lemma {:induction false} OntoAppends(done: string, rest: string, mbrlen: string -> Front)
    ensures Onto(done, rest, mbrlen) == done + Escaped(rest, mbrlen)
    decreases |rest|
  {
    if rest != [] {
      var piece, next := Piece(rest, mbrlen), rest[Size(rest, mbrlen)..];
      OntoAppends(done + piece, next, mbrlen);
      Regroup(done, piece, Escaped(next, mbrlen));
    }
  }

  lemma OntoNothing(line: string, mbrlen: string -> Front)
    ensures Onto([], line, mbrlen) == Escaped(line, mbrlen)
  {
    OntoAppends([], line, mbrlen);
  }

  lemma OntoStep(done: string, rest: string, mbrlen: string -> Front)
    requires rest != []
    ensures Onto(done, rest, mbrlen) == Onto(done + Piece(rest, mbrlen), rest[Size(rest, mbrlen)..], mbrlen)
  {
  }

  /** What is done, and the rest of the line from `k` on, make the whole. */
  ghost predicate Underway(escaped: Option<string>, line: string, k: nat, mbrlen: string -> Front) {
    k <= |line| && Onto(Emplaced(escaped, line, k), line[k..], mbrlen) == Onto([], line, mbrlen)
  }

  lemma Begins(line: string, mbrlen: string -> Front)
    ensures Underway(None, line, 0, mbrlen)
  {
    assert line[0..] == line;
  }

  lemma GoesOn(escaped: Option<string>, more: Option<string>, line: string, k: nat, n: nat, mbrlen: string -> Front)
    requires k < |line| && Underway(escaped, line, k, mbrlen) && n == Size(line[k..], mbrlen)
    requires Emplaced(more, line, k + n) == Emplaced(escaped, line, k) + Piece(line[k..], mbrlen)
    ensures Underway(more, line, k + n, mbrlen)
  {
    OntoStep(Emplaced(escaped, line, k), line[k..], mbrlen);
    assert line[k..][n..] == line[k + n..];
  }

  lemma Ends(escaped: Option<string>, line: string, mbrlen: string -> Front)
    requires Underway(escaped, line, |line|, mbrlen)
    ensures Escaped(line, mbrlen) == if escaped.Some? then escaped.value else line
  {
    OntoNothing(line, mbrlen);
    assert line[|line|..] == [] && line[..|line|] == line;
  }

  /** describe_line: though copied lazily, the result is the character-by-character escaping, for
      every line, text or not. */
  method DescribeLine(line: string, mbrlen: string -> Front) returns (description: string)
    ensures description == Escaped(line, mbrlen)
  {
    var escaped: Option<string> := None;
    var k := 0;
    Begins(line, mbrlen);
    while k < |line|
      invariant Underway(escaped, line, k, mbrlen)
      decreases |line| - k
    {
      var more, n := Append(escaped, line, k, mbrlen);
      GoesOn(escaped, more, line, k, n, mbrlen);
      escaped, k := more, k + n;
    }
    Ends(escaped, line, mbrlen);
    description := if escaped.Some? then escaped.value else line;
  }

  // ---------------------------------------------------------------- quoting

  predicate Special(c: char) {
    c == '\"' || c == '\\'
  }

  function Quoted(s: string): string {
    if s == [] then [] else (if Special(s[0]) then ['\\', s[0]] else [s[0]]) + Quoted(s[1..])
  }

  lemma QuotedHead(c: char, rest: string)
    requires !Special(c)
    ensures Quoted([c] + rest) == [c] + Quoted(rest)
  {
    assert ([c] + rest)[1..] == rest;
  }

  lemma {:induction false} QuotedPrefix(a: string, b: string)
    requires forall i :: 0 <= i < |a| ==> !Special(a[i])
    ensures Quoted(a + b) == a + Quoted(b)
  {
    if a == [] {
      assert a + b == b;
    } else {
      assert a + b == [a[0]] + (a[1..] + b) && a == [a[0]] + a[1..];
      QuotedHead(a[0], a[1..] + b);
      QuotedPrefix(a[1..], b);
      Regroup([a[0]], a[1..], Quoted(b));
    }
  }

  /** Quotes and backslashes at the front, each written after a backslash. */
  method WriteSpecials(s: string, from: nat, out: string) returns (next: nat, written: string)
    requires from <= |s|
    ensures from <= next <= |s| && (next < |s| ==> !Special(s[next]))
    ensures from < |s| && Special(s[from]) ==> from < next
    ensures written + Quoted(s[next..]) == out + Quoted(s[from..])
  {
    next, written := from, out;
    while next < |s| && Special(s[next])
      invariant from <= next <= |s|
      invariant written + Quoted(s[next..]) == out + Quoted(s[from..])
    {
      assert s[next..][1..] == s[next + 1..];
      Regroup(written, ['\\', s[next]], Quoted(s[next + 1..]));
      written := written + ['\\', s[next]];
      next := next + 1;
    }
  }

  /** The loop of generate_service: runs of plain text are written whole. */
  method WriteQuoted(desc: string) returns (out: string)
    ensures out == Quoted(desc)
  {
    out := [];
    var from := 0;
    var idx := FirstOf(desc, "\\\"", 0);
    assert desc[0..] == desc;
    while idx < |desc|
      invariant from <= idx <= |desc| && idx == FirstOf(desc, "\\\"", from)
      invariant out + Quoted(desc[from..]) == Quoted(desc)
      decreases |desc| - from
    {
      PlainRun(desc, from, idx);
      Regroup(out, desc[from..idx], Quoted(desc[idx..]));
      out := out + desc[from..idx];
      from, out := WriteSpecials(desc, idx, out);
      idx := FirstOf(desc, "\\\"", from);
    }
    PlainRun(desc, from, idx);
    assert desc[idx..] == [];
    out := out + desc[from..];
    assert desc[from..idx] == desc[from..];
  }

  lemma PlainRun(desc: string, from: nat, idx: nat)
    requires from <= idx <= |desc| && idx == FirstOf(desc, "\\\"", from)
    ensures Quoted(desc[from..]) == desc[from..idx] + Quoted(desc[idx..])
    ensures idx < |desc| ==> Special(desc[idx])
  {
    assert forall c :: c in "\\\"" <==> Special(c);
    assert desc[from..] == desc[from..idx] + desc[idx..];
    QuotedPrefix(desc[from..idx], desc[idx..]);
  }

  // ---------------------------------------------------------------- reading it back

  /** A backslash stands for the character after it. */
  function Unquoted(s: string): string
    decreases |s|
  {
    if s == [] then []
    else if s[0] == '\\' && |s| > 1 then [s[1]] + Unquoted(s[2..])
    else [s[0]] + Unquoted(s[1..])
  }

  /** In a unit file, `%%` stands for `%`. */
  function Unpercented(s: string): string
    decreases |s|
  {
    if s == [] then []
    else if s[0] == '%' && |s| > 1 && s[1] == '%' then ['%'] + Unpercented(s[2..])
    else [s[0]] + Unpercented(s[1..])
  }

  lemma {:induction false} UnquotedQuoted(s: string)
    ensures Unquoted(Quoted(s)) == s
  {
    if s != [] {
      UnquotedQuoted(s[1..]);
      var q := Quoted(s);
      if Special(s[0]) {
        assert q[2..] == Quoted(s[1..]) && q[1] == s[0];
      } else {
        assert q[1..] == Quoted(s[1..]) && q[0] == s[0];
      }
      assert s == [s[0]] + s[1..];
    }
  }

  lemma UnpercentedHead(c: char, rest: string)
    requires c != '%'
    ensures Unpercented([c] + rest) == [c] + Unpercented(rest)
  {
    assert ([c] + rest)[1..] == rest;
  }

  lemma {:induction false} UnpercentedPrefix(a: string, b: string)
    requires '%' !in a
    ensures Unpercented(a + b) == a + Unpercented(b)
  {
    if a == [] {
      assert a + b == b;
    } else {
      assert a + b == [a[0]] + (a[1..] + b) && a == [a[0]] + a[1..];
      UnpercentedHead(a[0], a[1..] + b);
      UnpercentedPrefix(a[1..], b);
      Regroup([a[0]], a[1..], Unpercented(b));
    }
  }

  function Shown(s: string, mbrlen: string -> Front): string
    requires s != []
  {
    if mbrlen(s).Whole? then s[..Size(s, mbrlen)] else HexAll(s[..Size(s, mbrlen)])
  }

  /** The line with only what is no text replaced. */
  function Legible(s: string, mbrlen: string -> Front): string
    decreases |s|
  {
    if s == [] then [] else Shown(s, mbrlen) + Legible(s[Size(s, mbrlen)..], mbrlen)
  }

  lemma UnpercentedPiece(s: string, mbrlen: string -> Front, rest: string)
    requires PercentAlone(mbrlen) && s != []
    ensures Unpercented(Piece(s, mbrlen) + rest) == Shown(s, mbrlen) + Unpercented(rest)
  {
    if mbrlen(s).Whole? && s[0] == '%' {
      assert ("%%" + rest)[2..] == rest;
      assert s[..1] == ['%'];
    } else {
      var piece := Piece(s, mbrlen);
      HexAllIsPlain(s[..Size(s, mbrlen)]);
      assert mbrlen(s).Whole? ==> forall i :: 0 <= i < |piece| ==> piece[i] == s[i] && s[i] != '%';
      UnpercentedPrefix(piece, rest);
    }
  }

  lemma {:induction false} UnpercentedEscaped(s: string, mbrlen: string -> Front)
    requires PercentAlone(mbrlen)
    ensures Unpercented(Escaped(s, mbrlen)) == Legible(s, mbrlen)
    decreases |s|
  {
    if s != [] {
      var rest := s[Size(s, mbrlen)..];
      UnpercentedEscaped(rest, mbrlen);
      UnpercentedPiece(s, mbrlen, Escaped(rest, mbrlen));
    }
  }

  /** All of it whole characters. */
  predicate IsText(s: string, mbrlen: string -> Front)
    decreases |s|
  {
    s == [] || (mbrlen(s).Whole? && IsText(s[Size(s, mbrlen)..], mbrlen))
  }

  lemma {:induction false} LegibleText(s: string, mbrlen: string -> Front)
    ensures if IsText(s, mbrlen) then Legible(s, mbrlen) == s else |Legible(s, mbrlen)| > |s|
    decreases |s|
  {
    if s != [] {
      var n := Size(s, mbrlen);
      LegibleText(s[n..], mbrlen);
      HexAllIsPlain(s[..n]);
      LegibleStep(Shown(s, mbrlen), s, n, Legible(s[n..], mbrlen), mbrlen(s).Whole?, IsText(s[n..], mbrlen));
    }
  }

  lemma LegibleStep(shown: string, s: string, n: nat, rest: string, whole: bool, text: bool)
    requires 1 <= n <= |s| && if whole then shown == s[..n] else |shown| == 4 * n
    requires if text then rest == s[n..] else |rest| > |s[n..]|
    ensures if whole && text then shown + rest == s else |shown + rest| > |s|
  {
    assert s == s[..n] + s[n..];
  }

  /** Undoing the quoting and then `%%` gives the line back just if it is text throughout. */
  lemma DescriptionRoundTrip(line: string, mbrlen: string -> Front)
    requires PercentAlone(mbrlen)
    ensures Unpercented(Unquoted(Quoted(Escaped(line, mbrlen)))) == line <==> IsText(line, mbrlen)
  {
    UnquotedQuoted(Escaped(line, mbrlen));
    UnpercentedEscaped(line, mbrlen);
    LegibleText(line, mbrlen);
  }
}
