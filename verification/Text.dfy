/** Strings cut at a separator, and the numbers in them: what snprintf("%u") writes and what
    strtoull(3), behind vore::parse_uint and int_map, reads. */
module Text {
  import opened Tokens

  /** std::size_t is this wide. */
  const WORD := 0x1_0000_0000_0000_0000

  // ---------------------------------------------------------------- cutting and joining

  /** find(c, from): the length if there is none. */
  function FindFrom(s: string, c: char, from: nat): (k: nat)
    requires from <= |s|
    ensures from <= k <= |s| && (k < |s| ==> s[k] == c)
    ensures forall j :: from <= j < k ==> s[j] != c
    decreases |s| - from
  {
    if from == |s| || s[from] == c then from else FindFrom(s, c, from + 1)
  }

  function Find(s: string, c: char): (k: nat)
    ensures k <= |s| && (k < |s| ==> s[k] == c)
    ensures forall j :: 0 <= j < k ==> s[j] != c
  {
    FindFrom(s, c, 0)
  }

  function Split(s: string, c: char): (parts: seq<string>)
    ensures |parts| > 0
    decreases |s|
  {
    var k := Find(s, c);
    if k == |s| then [s] else [s[..k]] + Split(s[k + 1..], c)
  }

  function Join(parts: seq<string>, c: char): string {
    if |parts| == 0 then []
    else if |parts| == 1 then parts[0]
    else parts[0] + [c] + Join(parts[1..], c)
  }

  lemma FindAt(s: string, c: char, k: nat)
    requires k <= |s| && (k < |s| ==> s[k] == c) && c !in s[..k]
    ensures Find(s, c) == k
  {
  }

  lemma SplitCut(a: string, b: string, c: char)
    requires c !in a
    ensures Split(a + [c] + b, c) == [a] + Split(b, c)
  {
    var s := a + [c] + b;
    assert s[..|a|] == a && s[|a| + 1..] == b;
    FindAt(s, c, |a|);
  }

  lemma SplitWhole(a: string, c: char)
    requires c !in a
    ensures Split(a, c) == [a]
  {
    assert a[..|a|] == a;
    FindAt(a, c, |a|);
  }

  lemma SplitTwo(a: string, b: string, c: char)
    requires c !in a && c !in b
    ensures Split(a + [c] + b, c) == [a, b]
  {
    SplitCut(a, b, c);
    SplitWhole(b, c);
  }

  lemma SplitThree(a: string, b: string, d: string, c: char)
    requires c !in a && c !in b && c !in d
    ensures Split(a + [c] + (b + [c] + d), c) == [a, b, d]
  {
    SplitCut(a, b + [c] + d, c);
    SplitTwo(b, d, c);
  }

  lemma {:induction false} SplitJoin(parts: seq<string>, c: char)
    requires |parts| > 0 && forall i :: 0 <= i < |parts| ==> c !in parts[i]
    ensures Split(Join(parts, c), c) == parts
  {
    if |parts| == 1 {
      SplitWhole(parts[0], c);
    } else {
      SplitJoin(parts[1..], c);
      SplitCut(parts[0], Join(parts[1..], c), c);
    }
  }

  lemma {:induction false} JoinSnoc(parts: seq<string>, p: string, c: char)
    ensures Join(parts + [p], c) == if parts == [] then p else Join(parts, c) + [c] + p
  {
    if |parts| > 0 {
      assert (parts + [p])[1..] == parts[1..] + [p];
      JoinSnoc(parts[1..], p, c);
    }
  }

  lemma {:induction false} JoinLacks(parts: seq<string>, sep: char, c: char)
    requires c != sep && forall i :: 0 <= i < |parts| ==> c !in parts[i]
    ensures c !in Join(parts, sep)
  {
    if |parts| > 1 {
      JoinLacks(parts[1..], sep, c);
    }
  }

  /** The words of a command that are not skipped. */
  function Nonempty<T>(words: seq<seq<T>>): (kept: seq<seq<T>>)
    ensures forall i :: 0 <= i < |kept| ==> kept[i] in words && kept[i] != []
  {
    if words == [] then []
    else (if words[0] == [] then [] else [words[0]]) + Nonempty(words[1..])
  }

  lemma NonemptyCons<T>(w: seq<T>, words: seq<seq<T>>)
    requires w != []
    ensures Nonempty([w] + words) == [w] + Nonempty(words)
  {
    assert ([w] + words)[1..] == words;
  }

  lemma {:induction false} NonemptySnoc<T>(words: seq<seq<T>>, w: seq<T>)
    ensures Nonempty(words + [w]) == Nonempty(words) + if w == [] then [] else [w]
  {
    if words != [] {
      assert (words + [w])[1..] == words[1..] + [w];
      NonemptySnoc(words[1..], w);
    }
  }

  // ---------------------------------------------------------------- tokens of a list

  /** The tokens of a text from a position on, as strings. */
  function TokensFrom(text: string, delim: string, i: nat): seq<string>
    requires i <= |text|
    decreases |text| - i
  {
    var lo := FirstNotOf(text, delim, i);
    if lo == |text| then []
    else
      var hi := FirstOf(text, delim, lo);
      [text[lo..hi]] + TokensFrom(text, delim, hi)
  }

  function TokensOf(text: string, delim: string): seq<string> {
    TokensFrom(text, delim, 0)
  }

  /** They are the characters of the runs. */
  lemma {:induction false} TokensAreRuns(text: string, delim: string, i: nat, n: nat)
    requires i <= |text|
    ensures |TokensFrom(text, delim, i)| == |Runs(text, delim, i)|
    ensures n < |Runs(text, delim, i)| ==>
              InText(text, Runs(text, delim, i)[n]) && TokensFrom(text, delim, i)[n] == Chars(text, Runs(text, delim, i)[n])
    decreases |text| - i
  {
    var lo := FirstNotOf(text, delim, i);
    if lo < |text| {
      TokensAreRuns(text, delim, FirstOf(text, delim, lo), if n == 0 then 0 else n - 1);
    }
  }

  lemma FirstNotOfHere(text: string, delim: string, i: nat)
    requires i <= |text| && (i < |text| ==> text[i] !in delim)
    ensures FirstNotOf(text, delim, i) == i
  {
  }

  lemma {:induction false} FirstOfAt(text: string, delim: string, i: nat, j: nat)
    requires i <= j <= |text| && (j < |text| ==> text[j] in delim)
    requires forall k :: i <= k < j ==> text[k] !in delim
    ensures FirstOf(text, delim, i) == j
    decreases j - i
  {
    if i < j {
      FirstOfAt(text, delim, i + 1, j);
    }
  }

  lemma TokensStep(text: string, c: char, lo: nat, hi: nat, token: string)
    requires lo < hi <= |text| && (hi < |text| ==> text[hi] == c)
    requires text[lo..hi] == token && c !in token
    ensures hi == |text| ==> TokensFrom(text, [c], lo) == [token]
    ensures hi < |text| ==> TokensFrom(text, [c], lo) == [token] + TokensFrom(text, [c], hi + 1)
  {
    LacksSeparator(text, lo, hi, c);
    FirstNotOfHere(text, [c], lo);
    FirstOfAt(text, [c], lo, hi);
  }

  lemma LacksSeparator(text: string, lo: nat, hi: nat, c: char)
    requires lo <= hi <= |text| && c !in text[lo..hi]
    ensures forall k :: lo <= k < hi ==> text[k] != c
  {
    assert forall k :: lo <= k < hi ==> text[k] == text[lo..hi][k - lo];
  }

  /** Two texts go on alike. */
  predicate SameRest(text: string, i: nat, other: string, j: nat) {
    i <= |text| && j <= |other| && text[i..] == other[j..]
  }

  lemma SameNext(text: string, i: nat, other: string, j: nat)
    requires SameRest(text, i, other, j)
    ensures |text| - i == |other| - j
    ensures i < |text| ==> text[i] == other[j] && SameRest(text, i + 1, other, j + 1)
  {
    if i < |text| {
      assert text[i] == text[i..][0] && other[j] == other[j..][0];
      assert text[i + 1..] == text[i..][1..] && other[j + 1..] == other[j..][1..];
    }
  }

  lemma {:induction false} SameFirstNotOf(text: string, i: nat, other: string, j: nat, delim: string)
    requires SameRest(text, i, other, j)
    ensures var a, b := FirstNotOf(text, delim, i), FirstNotOf(other, delim, j); a - i == b - j && SameRest(text, a, other, b)
    decreases |text| - i
  {
    SameNext(text, i, other, j);
    if i < |text| && text[i] in delim {
      SameFirstNotOf(text, i + 1, other, j + 1, delim);
    }
  }

  lemma {:induction false} SameFirstOf(text: string, i: nat, other: string, j: nat, delim: string)
    requires SameRest(text, i, other, j)
    ensures var a, b := FirstOf(text, delim, i), FirstOf(other, delim, j); a - i == b - j && SameRest(text, a, other, b)
    decreases |text| - i
  {
    SameNext(text, i, other, j);
    if i < |text| && text[i] !in delim {
      SameFirstOf(text, i + 1, other, j + 1, delim);
    }
  }

  lemma SameSlice(text: string, i: nat, other: string, j: nat, n: nat)
    requires SameRest(text, i, other, j) && i + n <= |text| && j + n <= |other|
    ensures text[i..i + n] == other[j..j + n]
  {
    assert text[i..i + n] == text[i..][..n] && other[j..j + n] == other[j..][..n];
  }

  lemma TokensUnfold(text: string, delim: string, i: nat, lo: nat, hi: nat)
    requires i <= |text| && lo == FirstNotOf(text, delim, i) < |text| && hi == FirstOf(text, delim, lo)
    ensures i < hi && TokensFrom(text, delim, i) == [text[lo..hi]] + TokensFrom(text, delim, hi)
  {
  }

  lemma NoMoreTokens(text: string, delim: string, i: nat)
    requires i <= |text| && FirstNotOf(text, delim, i) == |text|
    ensures TokensFrom(text, delim, i) == []
  {
  }

  lemma SameCons(a: seq<string>, x: string, rest: seq<string>, b: seq<string>, y: string, other: seq<string>)
    requires a == [x] + rest && b == [y] + other && x == y && rest == other
    ensures a == b
  {
  }

  /** So do their tokens. */
  lemma {:induction false} SameTokens(text: string, i: nat, other: string, j: nat, delim: string)
    requires SameRest(text, i, other, j)
    ensures TokensFrom(text, delim, i) == TokensFrom(other, delim, j)
    decreases |text| - i
  {
    SameFirstNotOf(text, i, other, j, delim);
    var lo, lo' := FirstNotOf(text, delim, i), FirstNotOf(other, delim, j);
    SameNext(text, lo, other, lo');
    if lo < |text| {
      SameFirstOf(text, lo, other, lo', delim);
      var hi, hi' := FirstOf(text, delim, lo), FirstOf(other, delim, lo');
      TokensUnfold(text, delim, i, lo, hi);
      TokensUnfold(other, delim, j, lo', hi');
      SameSlice(text, lo, other, lo', hi - lo);
      SameTokens(text, hi, other, hi', delim);
      SameCons(TokensFrom(text, delim, i), text[lo..hi], TokensFrom(text, delim, hi),
               TokensFrom(other, delim, j), other[lo'..hi'], TokensFrom(other, delim, hi'));
    } else {
      NoMoreTokens(text, delim, i);
      NoMoreTokens(other, delim, j);
    }
  }

  lemma TokensOne(part: string, c: char)
    requires part != [] && c !in part
    ensures TokensOf(part, [c]) == [part]
  {
    assert part[0..|part|] == part;
    TokensStep(part, c, 0, |part|, part);
  }

  lemma Prepended(a: seq<string>, part: string, rest: seq<string>, other: seq<string>)
    requires a == [part] + rest && rest == other
    ensures a == [part] + other
  {
  }

  lemma Parts(part: string, c: char, rest: string)
    ensures var text, hi := part + [c] + rest, |part|;
            hi < |text| && text[hi] == c && text[0..hi] == part && SameRest(text, hi + 1, rest, 0)
  {
    var text := part + [c] + rest;
    assert text[|part| + 1..] == rest && rest[0..] == rest;
  }

  lemma TokensCons(part: string, c: char, rest: string)
    requires part != [] && c !in part
    ensures TokensOf(part + [c] + rest, [c]) == [part] + TokensOf(rest, [c])
  {
    var text, hi := part + [c] + rest, |part|;
    Parts(part, c, rest);
    TokensStep(text, c, 0, hi, part);
    SameTokens(text, hi + 1, rest, 0, [c]);
    Prepended(TokensFrom(text, [c], 0), part, TokensFrom(text, [c], hi + 1), TokensFrom(rest, [c], 0));
  }

  /** The tokens of a comma-separated list of nonempty, comma-free parts are those parts. */
  lemma {:induction false} TokensOfList(parts: seq<string>, c: char)
    requires |parts| > 0 && forall i :: 0 <= i < |parts| ==> parts[i] != [] && c !in parts[i]
    ensures TokensOf(Join(parts, c), [c]) == parts
  {
    if |parts| == 1 {
      TokensOne(parts[0], c);
    } else {
      TokensOfList(parts[1..], c);
      TokensCons(parts[0], c, Join(parts[1..], c));
    }
  }

  // ---------------------------------------------------------------- decimal numbers

  predicate IsDigit(c: char) {
    '0' <= c <= '9'
  }

  predicate AllDigits(s: string) {
    forall i :: 0 <= i < |s| ==> IsDigit(s[i])
  }

  predicate Numeral(s: string) {
    s != [] && AllDigits(s)
  }

  function Value(s: string): nat
    requires AllDigits(s)
  {
    if s == [] then 0 else Value(s[..|s| - 1]) * 10 + (s[|s| - 1] as int - '0' as int)
  }

  /** snprintf("%u"). */
  function Decimal(n: nat): (s: string)
    ensures Numeral(s) && Value(s) == n && (s[0] == '0' ==> n == 0 && |s| == 1)
  {
    var last := (n % 10 + '0' as int) as char;
    if n < 10 then assert [last][..0] == []; [last]
    else
      var s := Decimal(n / 10) + [last];
      assert s[..|s| - 1] == Decimal(n / 10);
      s
  }

  predicate IsSpace(c: char) {
    c == ' ' || c == '\t' || c == '\n' || c == '\r' || c as int == 11 || c as int == 12
  }

  function SpaceEnd(s: string, i: nat): (j: nat)
    requires i <= |s|
    ensures i <= j <= |s| && (forall k :: i <= k < j ==> IsSpace(s[k])) && (j < |s| ==> !IsSpace(s[j]))
    decreases |s| - i
  {
    if i < |s| && IsSpace(s[i]) then SpaceEnd(s, i + 1) else i
  }

  function TrimLeft(s: string): string {
    s[SpaceEnd(s, 0)..]
  }

  function DigitsEnd(s: string, i: nat): (j: nat)
    requires i <= |s|
    ensures i <= j <= |s| && AllDigits(s[i..j])
    decreases |s| - i
  {
    if i < |s| && IsDigit(s[i]) then
      var j := DigitsEnd(s, i + 1);
      assert forall k :: 0 < k < j - i ==> s[i..j][k] == s[i + 1..j][k - 1];
      j
    else i
  }

  /** A number and the error flag it leaves behind. */
  datatype Mapped = Mapped(value: nat, err: bool)

  /** strtoull(s, &end, 10) and the tests after it: blanks and a sign are let through. */
  function Strtoull(s: string): (m: Mapped)
    ensures m.value < WORD
  {
    var sign := SpaceEnd(s, 0);
    var digits := if sign < |s| && (s[sign] == '+' || s[sign] == '-') then sign + 1 else sign;
    var end := DigitsEnd(s, digits);
    if digits == end then Mapped(0, true)
    else
      var v := Value(s[digits..end]);
      if v >= WORD then Mapped(WORD - 1, true)
      else Mapped(if s[sign] == '-' then (WORD - v) % WORD else v, end != |s|)
  }

  /** int_map: `err` is set on failure and never cleared. */
  function IntMap(str: string, err: bool): (m: Mapped)
    ensures m.value < WORD && (err ==> m.err)
  {
    var s := str[..Find(str, '\0')];
    if s == [] || s[0] == '-' then Mapped(WORD - 1, true)
    else
      var m := Strtoull(s);
      Mapped(m.value, err || m.err)
  }

  lemma {:induction false} DigitsEndAll(s: string, i: nat)
    requires i <= |s| && AllDigits(s)
    ensures DigitsEnd(s, i) == |s|
    decreases |s| - i
  {
    if i < |s| {
      DigitsEndAll(s, i + 1);
    }
  }

  /** A plain numeral is read for its value, if that fits. */
  lemma IntMapNumeral(s: string, err: bool)
    requires Numeral(s)
    ensures IntMap(s, err) == if Value(s) < WORD then Mapped(Value(s), err) else Mapped(WORD - 1, true)
  {
    assert s[..|s|] == s && '\0' !in s;
    FindAt(s, '\0', |s|);
    DigitsEndAll(s, 0);
    assert s[0..|s|] == s;
  }

  /** No name is a number. */
  lemma IntMapLetter(s: string, err: bool)
    requires s != [] && ('a' <= s[0] <= 'z' || 'A' <= s[0] <= 'Z')
    ensures IntMap(s, err) == Mapped(0, true)
  {
    var t := s[..Find(s, '\0')];
    assert t[0] == s[0];
  }

  // ---------------------------------------------------------------- what is a number

  /** By strtoull(3): blanks, perhaps a sign, and decimal digits, of a value below 2^64; a minus
      negates modulo 2^64. */
  predicate Reads(blanks: string, sign: string, digits: string, v: nat) {
    && (forall i :: 0 <= i < |blanks| ==> blanks[i] == ' ' || 9 <= blanks[i] as int <= 13)
    && Numeral(digits) && Value(digits) < 0x1_0000_0000_0000_0000
    && (sign == "" || sign == "+" || (sign == "-" && blanks != ""))
    && v == if sign == "-" && Value(digits) > 0 then 0x1_0000_0000_0000_0000 - Value(digits) else Value(digits)
  }

  function Signed(blanks: string, sign: string, digits: string): string {
    blanks + sign + digits
  }

  ghost predicate IsNumber(s: string, v: nat) {
    exists blanks, sign, digits :: Reads(blanks, sign, digits, v) && s == Signed(blanks, sign, digits)
  }

  lemma {:induction false} DigitsEndAt(s: string, i: nat)
    requires i <= |s| && forall k :: i <= k < |s| ==> IsDigit(s[k])
    ensures DigitsEnd(s, i) == |s|
    decreases |s| - i
  {
    if i < |s| {
      DigitsEndAt(s, i + 1);
    }
  }

  lemma {:induction false} SpaceEndAt(s: string, i: nat, j: nat)
    requires i <= j <= |s| && (forall k :: i <= k < j ==> IsSpace(s[k])) && (j < |s| ==> !IsSpace(s[j]))
    ensures SpaceEnd(s, i) == j
    decreases j - i
  {
    if i < j {
      SpaceEndAt(s, i + 1, j);
    }
  }

  /** Where the parts of a number are. */
  lemma SignedParts(blanks: string, sign: string, digits: string)
    ensures var s, d := Signed(blanks, sign, digits), |blanks| + |sign|;
            && |s| == d + |digits| && s[d..] == digits && s[d..|s|] == digits
            && (forall i :: 0 <= i < |blanks| ==> s[i] == blanks[i])
            && (|sign| == 1 ==> s[|blanks|] == sign[0])
            && (forall i :: d <= i < |s| ==> s[i] == digits[i - d])
  {
  }

  /** Digits to the end, after blanks that end at `sign`. */
  lemma StrtoullAt(s: string, sign: nat, digits: nat, v: nat)
    requires sign == SpaceEnd(s, 0) && sign <= digits < |s| && DigitsEnd(s, digits) == |s|
    requires digits == if s[sign] == '+' || s[sign] == '-' then sign + 1 else sign
    requires AllDigits(s[digits..|s|]) && Value(s[digits..|s|]) == v < WORD
    ensures Strtoull(s) == Mapped(if s[sign] == '-' && v > 0 then WORD - v else v, false)
  {
  }

  lemma NumberEnds(blanks: string, sign: string, digits: string)
    requires Numeral(digits) && (sign == "" || sign == "+" || sign == "-")
    requires forall i :: 0 <= i < |blanks| ==> IsSpace(blanks[i])
    ensures var s, d := Signed(blanks, sign, digits), |blanks| + |sign|;
            && SpaceEnd(s, 0) == |blanks| && d < |s| && DigitsEnd(s, d) == |s|
            && d == if s[|blanks|] == '+' || s[|blanks|] == '-' then |blanks| + 1 else |blanks|
  {
    var s, d := Signed(blanks, sign, digits), |blanks| + |sign|;
    SignedParts(blanks, sign, digits);
    assert IsDigit(digits[0]);
    SpaceEndAt(s, 0, |blanks|);
    DigitsEndAt(s, d);
  }

  lemma NumberIsRead(blanks: string, sign: string, digits: string, v: nat)
    requires Reads(blanks, sign, digits, v)
    ensures Strtoull(Signed(blanks, sign, digits)) == Mapped(v, false) && Signed(blanks, sign, digits)[0] != '-'
  {
    var s, d := Signed(blanks, sign, digits), |blanks| + |sign|;
    SignedParts(blanks, sign, digits);
    NumberEnds(blanks, sign, digits);
    StrtoullAt(s, |blanks|, d, Value(digits));
    assert |blanks| > 0 ==> s[0] == blanks[0];
    assert IsDigit(digits[0]);
  }

  lemma ThreeParts(s: string, a: nat, b: nat)
    requires a <= b <= |s|
    ensures s == Signed(s[..a], s[a..b], s[b..])
  {
    assert s[..b] == s[..a] + s[a..b];
    assert s == s[..b] + s[b..];
  }

  lemma StrtoullEnds(s: string, sign: nat, digits: nat, end: nat, v: nat)
    requires !Strtoull(s).err && sign == SpaceEnd(s, 0)
    requires digits == if sign < |s| && (s[sign] == '+' || s[sign] == '-') then sign + 1 else sign
    requires end == DigitsEnd(s, digits) && v == Value(s[digits..end])
    ensures end == |s| && digits < |s| && v < WORD
  {
  }

  lemma ReadsOf(blanks: string, sign: string, digits: string, w: nat, v: nat)
    requires (forall i :: 0 <= i < |blanks| ==> IsSpace(blanks[i])) && Numeral(digits) && Value(digits) == w < WORD
    requires sign == "" || sign == "+" || (sign == "-" && blanks != "")
    requires v == if sign == "-" && w > 0 then WORD - w else w
    ensures Reads(blanks, sign, digits, v)
  {
  }

  lemma SignOf(s: string, sign: nat, digits: nat)
    requires s != [] && s[0] != '-' && sign < |s| && sign <= digits <= |s|
    requires digits == if s[sign] == '+' || s[sign] == '-' then sign + 1 else sign
    ensures var t := s[sign..digits];
            (t == "" || t == "+" || (t == "-" && s[..sign] != "")) && (t == "-" <==> s[sign] == '-')
  {
    assert s[sign..digits] == if digits == sign then "" else [s[sign]];
    assert "-"[0] == '-' && "+"[0] == '+';
  }

  lemma Tail(s: string, i: nat)
    requires i <= |s|
    ensures s[i..|s|] == s[i..]
  {
  }

  lemma ReadIsNumber(s: string)
    requires s != [] && s[0] != '-' && !Strtoull(s).err
    ensures IsNumber(s, Strtoull(s).value)
  {
    var sign := SpaceEnd(s, 0);
    var digits := if sign < |s| && (s[sign] == '+' || s[sign] == '-') then sign + 1 else sign;
    var w := Value(s[digits..DigitsEnd(s, digits)]);
    StrtoullEnds(s, sign, digits, DigitsEnd(s, digits), w);
    StrtoullAt(s, sign, digits, w);
    ThreeParts(s, sign, digits);
    SignOf(s, sign, digits);
    Tail(s, digits);
    ReadsOf(s[..sign], s[sign..digits], s[digits..], w, Strtoull(s).value);
  }

  /** int_map takes for a number exactly what strtoull(3) reads to the end, unless it begins with a
      minus; what comes after a NUL is not looked at. */
  lemma IntMapExactly(s: string, rest: string, v: nat)
    requires '\0' !in s
    ensures IntMap(s, false) == Mapped(v, false) <==> IsNumber(s, v)
    ensures IntMap(s + ['\0'] + rest, false) == IntMap(s, false)
  {
    assert s[..|s|] == s && (s + ['\0'] + rest)[..|s|] == s;
    FindAt(s, '\0', |s|);
    FindAt(s + ['\0'] + rest, '\0', |s|);
    if IntMap(s, false) == Mapped(v, false) {
      ReadIsNumber(s);
    }
    if IsNumber(s, v) {
      var blanks, sign, digits :| Reads(blanks, sign, digits, v) && s == Signed(blanks, sign, digits);
      NumberIsRead(blanks, sign, digits, v);
    }
  }
}
