/** The streaming encoder of src/include/util.hpp, against the base 64 encoding of RFC 4648:
    bit grouping and padding as in section 4, the alphabet of section 5. */
module Base64 {
  import opened Basics

  /** A byte, held as the character with that code. */
  type Octet = c: char | c as int < 256 witness 'a'
  type Bytes = seq<Octet>

  function Code(c: Octet): (n: nat)
    ensures n < 256
  {
    c as int
  }

  function OctetOf(n: nat): (c: Octet)
    requires n < 256
    ensures Code(c) == n
  {
    n as char
  }

  /** Stands for `=` among the values of digits. */
  const PAD := 64

  /** `alphabet[n]`, or the padding character. */
  function Symbol(n: nat): char
    requires n <= PAD
  {
    if n < 26 then (n + 'A' as int) as char
    else if n < 52 then (n - 26 + 'a' as int) as char
    else if n < 62 then (n - 52 + '0' as int) as char
    else if n == 62 then '-'
    else if n == 63 then '_'
    else '='
  }

  // ---------------------------------------------------------------- RFC 4648

  /** A character's value; above PAD if it is outside the alphabet. */
  function ValueOf(c: char): (n: nat)
    ensures n <= PAD ==> Symbol(n) == c
  {
    if 'A' <= c <= 'Z' then c as int - 'A' as int
    else if 'a' <= c <= 'z' then c as int - 'a' as int + 26
    else if '0' <= c <= '9' then c as int - '0' as int + 52
    else if c == '-' then 62
    else if c == '_' then 63
    else if c == '=' then PAD
    else PAD + 1
  }

  predicate Digits(values: seq<nat>) {
    forall i :: 0 <= i < |values| ==> values[i] <= PAD
  }

  function Spell(values: seq<nat>): string
    requires Digits(values)
  {
    seq(|values|, i requires 0 <= i < |values| => Symbol(values[i]))
  }

  function Values(text: string): seq<nat> {
    seq(|text|, i requires 0 <= i < |text| => ValueOf(text[i]))
  }

  lemma SymbolHasValue(n: nat)
    requires n <= PAD
    ensures ValueOf(Symbol(n)) == n
  {
  }

  lemma ValuesOfSpelling(values: seq<nat>)
    requires Digits(values)
    ensures Values(Spell(values)) == values
  {
    forall i | 0 <= i < |values|
      ensures Values(Spell(values))[i] == values[i]
    {
      SymbolHasValue(values[i]);
    }
  }

  /** One 24-bit group, regrouped as four times six bits. */
  function Quad(x: nat, y: nat, z: nat): seq<nat>
    requires x < 256 && y < 256 && z < 256
  {
    [x / 4, x % 4 * 16 + y / 16, y % 16 * 4 + z / 64, z % 64]
  }

  /** The four digits are the same 24-bit number as the three bytes. */
  lemma QuadIsNumber(x: nat, y: nat, z: nat)
    requires x < 256 && y < 256 && z < 256
    ensures var q := Quad(x, y, z);
            q[0] < 64 && q[1] < 64 && q[2] < 64 && q[3] < 64
            && q[0] * 262_144 + q[1] * 4_096 + q[2] * 64 + q[3] == x * 65_536 + y * 256 + z
  {
    assert x == x / 4 * 4 + x % 4 && y == y / 16 * 16 + y % 16 && z == z / 64 * 64 + z % 64;
  }

  function EncodeValues(data: Bytes): (values: seq<nat>)
    ensures Digits(values) && |values| == (|data| + 2) / 3 * 4
  {
    if |data| == 0 then []
    else if |data| == 1 then Quad(Code(data[0]), 0, 0)[..2] + [PAD, PAD]
    else if |data| == 2 then Quad(Code(data[0]), Code(data[1]), 0)[..3] + [PAD]
    else Quad(Code(data[0]), Code(data[1]), Code(data[2])) + EncodeValues(data[3..])
  }

  /** The encoding of a whole byte string at once. */
  function Encode(data: Bytes): string {
    Spell(EncodeValues(data))
  }

  function Unquad(a: nat, b: nat, c: nat, d: nat): Bytes
    requires a < 64 && b < 64 && c < 64 && d < 64
  {
    [OctetOf(a * 4 + b / 16), OctetOf(b % 16 * 16 + c / 4), OctetOf(c % 4 * 64 + d)]
  }

  function DecodeValues(v: seq<nat>): Option<Bytes> {
    if v == [] then Some([])
    else if |v| < 4 || v[0] >= PAD || v[1] >= PAD then None
    else if |v| == 4 && v[2] == PAD && v[3] == PAD then Some(Unquad(v[0], v[1], 0, 0)[..1])
    else if v[2] >= PAD then None
    else if |v| == 4 && v[3] == PAD then Some(Unquad(v[0], v[1], v[2], 0)[..2])
    else if v[3] >= PAD then None
    else
      match DecodeValues(v[4..])
      case None => None
      case Some(rest) => Some(Unquad(v[0], v[1], v[2], v[3]) + rest)
  }

  /** A decoder, written from the standard: groups of four digits, the last possibly padded. */
  function Decode(text: string): Option<Bytes> {
    DecodeValues(Values(text))
  }

  lemma QuadRoundTrip(x: Octet, y: Octet, z: Octet)
    ensures var q := Quad(Code(x), Code(y), Code(z));
            Unquad(q[0], q[1], q[2], q[3]) == [x, y, z]
  {
  }

  lemma OneByteRoundTrip(x: Octet)
    ensures EncodeValues([x]) == [Code(x) / 4, Code(x) % 4 * 16, PAD, PAD]
    ensures DecodeValues([Code(x) / 4, Code(x) % 4 * 16, PAD, PAD]) == Some([x])
  {
    var c := Code(x);
    assert Quad(c, 0, 0)[..2] == [c / 4, c % 4 * 16];
    assert Unquad(c / 4, c % 4 * 16, 0, 0)[..1] == [OctetOf(c / 4 * 4 + c % 4 * 16 / 16)];
  }

  lemma TwoByteRoundTrip(x: Octet, y: Octet)
    ensures EncodeValues([x, y]) == [Code(x) / 4, Code(x) % 4 * 16 + Code(y) / 16, Code(y) % 16 * 4, PAD]
    ensures DecodeValues([Code(x) / 4, Code(x) % 4 * 16 + Code(y) / 16, Code(y) % 16 * 4, PAD]) == Some([x, y])
  {
    var c, d := Code(x), Code(y);
    assert Quad(c, d, 0)[..3] == [c / 4, c % 4 * 16 + d / 16, d % 16 * 4];
    QuadRoundTrip(x, y, OctetOf(0));
    assert Unquad(c / 4, c % 4 * 16 + d / 16, d % 16 * 4, 0)[..2] == [x, y];
  }

  lemma {:induction false} DecodeEncodeValues(data: Bytes)
    ensures DecodeValues(EncodeValues(data)) == Some(data)
  {
    var v := EncodeValues(data);
    if |data| == 1 {
      OneByteRoundTrip(data[0]);
      assert data == [data[0]];
    } else if |data| == 2 {
      TwoByteRoundTrip(data[0], data[1]);
      assert data == [data[0], data[1]];
    } else if |data| > 2 {
      QuadRoundTrip(data[0], data[1], data[2]);
      DecodeEncodeValues(data[3..]);
      assert v[4..] == EncodeValues(data[3..]);
      assert Unquad(v[0], v[1], v[2], v[3]) + data[3..] == data;
    }
  }

  /** Decoding undoes encoding. */
  lemma DecodeEncode(data: Bytes)
    ensures Decode(Encode(data)) == Some(data)
  {
    ValuesOfSpelling(EncodeValues(data));
    DecodeEncodeValues(data);
  }

  lemma {:induction false} EncodeAppends(front: Bytes, back: Bytes)
    requires |front| % 3 == 0
    ensures EncodeValues(front + back) == EncodeValues(front) + EncodeValues(back)
  {
    if front == [] {
      assert front + back == back;
    } else {
      assert (front + back)[3..] == front[3..] + back;
      EncodeAppends(front[3..], back);
    }
  }

  // ---------------------------------------------------------------- the encoder

  /** The encoder's state: the values of what was written, and a 16-bit accumulator with
      `accsz` bits pending at its top. */
  datatype State = State(values: seq<nat>, acc: nat, accsz: nat)

  predicate Sane(s: State) {
    Digits(s.values) && s.acc < 0x1_0000
  }

  /** A byte shifted so as to follow the pending bits. */
  function Shifted(b: Octet, accsz: nat): nat {
    if accsz == 0 then Code(b) * 256 else if accsz == 2 then Code(b) * 64 else Code(b) * 16
  }

  /** `acc |= byte << (8 - accsz)`: `|` is addition, since the bits it joins are
      disjoint (BitsDisjoint). */
  function Take(s: State, b: Octet): State {
    s.(acc := (s.acc + Shifted(b, s.accsz)) % 0x1_0000, accsz := s.accsz + 8)
  }

  /** Write the top six bits and shift them out. */
  function PutTop(s: State): State
    requires s.accsz >= 6
  {
    State(s.values + [s.acc / 1024], s.acc * 64 % 0x1_0000, s.accsz - 6)
  }

  function Drain(s: State): State
    decreases s.accsz
  {
    if s.accsz < 6 then s else Drain(PutTop(s))
  }

  /** The state after feeding some bytes. */
  function After(fed: Bytes): State {
    if fed == [] then State([], 0, 0)
    else Drain(Take(After(fed[..|fed| - 1]), fed[|fed| - 1]))
  }

  lemma AfterSnoc(fed: Bytes, b: Octet)
    ensures After(fed + [b]) == Drain(Take(After(fed), b))
  {
    assert (fed + [b])[..|fed|] == fed;
  }

  /** An unfinished 24-bit group: the digits written, and zero, two or four bits to go; the
      unused low bits of the accumulator are zero. */
  predicate Carries(tail: Bytes, written: seq<nat>, acc: nat, accsz: nat) {
    || (tail == [] && written == [] && acc == 0 && accsz == 0)
    || (|tail| == 1 && written == [Code(tail[0]) / 4]
        && acc == Code(tail[0]) % 4 * 16384 && accsz == 2)
    || (|tail| == 2 && written == [Code(tail[0]) / 4, Code(tail[0]) % 4 * 16 + Code(tail[1]) / 16]
        && acc == Code(tail[1]) % 16 * 4096 && accsz == 4)
  }

  /** Splitting the accumulator after its top six bits. */
  lemma TopSix(s: State, hi: nat, lo: nat)
    requires s.accsz >= 6 && s.acc == hi * 1024 + lo && hi < 64 && lo < 1024
    ensures PutTop(s) == State(s.values + [hi], lo * 64, s.accsz - 6)
  {
    SplitAcc(s.acc, hi, lo);
  }

  lemma SplitAcc(acc: nat, hi: nat, lo: nat)
    requires acc == hi * 1024 + lo && lo < 1024
    ensures acc / 1024 == hi && acc * 64 % 0x1_0000 == lo * 64
  {
    assert acc * 64 == hi * 0x1_0000 + lo * 64;
  }

  lemma FirstByte(s: State, b: Octet)
    requires s.acc == 0 && s.accsz == 0
    ensures Drain(Take(s, b)) == State(s.values + [Code(b) / 4], Code(b) % 4 * 16384, 2)
  {
    TopSix(Take(s, b), Code(b) / 4, Code(b) % 4 * 256);
  }

  lemma SecondByte(s: State, x: nat, b: Octet)
    requires x < 256 && s.acc == x % 4 * 16384 && s.accsz == 2
    ensures Drain(Take(s, b)) == State(s.values + [x % 4 * 16 + Code(b) / 16], Code(b) % 16 * 4096, 4)
  {
    TopSix(Take(s, b), x % 4 * 16 + Code(b) / 16, Code(b) % 16 * 64);
  }

  lemma ThirdByte(s: State, y: nat, b: Octet)
    requires y < 256 && s.acc == y % 16 * 4096 && s.accsz == 4
    ensures Drain(Take(s, b)) == State(s.values + [y % 16 * 4 + Code(b) / 64, Code(b) % 64], 0, 0)
  {
    var t := Take(s, b);
    TopSix(t, y % 16 * 4 + Code(b) / 64, Code(b) % 64 * 16);
    var u := PutTop(t);
    TopSix(u, Code(b) % 64, 0);
    assert Drain(t) == Drain(u) == Drain(PutTop(u)) == PutTop(u);
    assert u.values + [Code(b) % 64] == s.values + [y % 16 * 4 + Code(b) / 64, Code(b) % 64];
  }

  /** A first or second byte of a group. */
  lemma GroupGoesOn(tail: Bytes, written: seq<nat>, s: State, b: Octet) returns (digit: nat)
    requires |tail| < 2 && Carries(tail, written, s.acc, s.accsz)
    ensures var s' := Drain(Take(s, b));
            s'.values == s.values + [digit] && Carries(tail + [b], written + [digit], s'.acc, s'.accsz)
  {
    if |tail| == 0 {
      FirstByte(s, b);
      digit := Code(b) / 4;
    } else {
      SecondByte(s, Code(tail[0]), b);
      digit := Code(tail[0]) % 4 * 16 + Code(b) / 16;
    }
  }

  lemma GroupEncoded(whole: Bytes, tail: Bytes, b: Octet)
    requires |whole| % 3 == 0 && |tail| == 2
    ensures EncodeValues(whole + tail + [b]) == EncodeValues(whole) + Quad(Code(tail[0]), Code(tail[1]), Code(b))
  {
    var group := tail + [b];
    assert whole + tail + [b] == whole + group;
    EncodeAppends(whole, group);
    assert group[3..] == [];
    assert EncodeValues(group) == Quad(Code(group[0]), Code(group[1]), Code(group[2])) + EncodeValues(group[3..]);
  }

  /** A third byte completes the group. */
  lemma GroupCompletes(whole: Bytes, tail: Bytes, written: seq<nat>, values: seq<nat>, b: Octet, more: seq<nat>)
    requires |whole| % 3 == 0 && |tail| == 2 && values == EncodeValues(whole) + written
    requires written == [Code(tail[0]) / 4, Code(tail[0]) % 4 * 16 + Code(tail[1]) / 16]
    requires more == values + [Code(tail[1]) % 16 * 4 + Code(b) / 64, Code(b) % 64]
    ensures more == EncodeValues(whole + tail + [b])
  {
    GroupEncoded(whole, tail, b);
    var two := [Code(tail[1]) % 16 * 4 + Code(b) / 64, Code(b) % 64];
    Regroup(EncodeValues(whole), written, two);
    assert written + two == Quad(Code(tail[0]), Code(tail[1]), Code(b));
  }

  ghost predicate Holds(fed: Bytes, whole: Bytes, tail: Bytes, written: seq<nat>, s: State) {
    && fed == whole + tail && |whole| % 3 == 0
    && s.values == EncodeValues(whole) + written && Carries(tail, written, s.acc, s.accsz)
  }

  lemma HoldsWithin(fed: Bytes, whole: Bytes, tail: Bytes, written: seq<nat>, s: State, b: Octet, digit: nat, s': State)
    requires Holds(fed, whole, tail, written, s) && s'.values == s.values + [digit]
    requires Carries(tail + [b], written + [digit], s'.acc, s'.accsz)
    ensures Holds(fed + [b], whole, tail + [b], written + [digit], s')
  {
    Regroup(whole, tail, [b]);
    Regroup(EncodeValues(whole), written, [digit]);
  }

  lemma HoldsAcross(fed: Bytes, whole: Bytes, tail: Bytes, written: seq<nat>, values: seq<nat>, b: Octet, s': State)
    requires fed == whole + tail && |whole| % 3 == 0 && |tail| == 2 && values == EncodeValues(whole) + written
    requires written == [Code(tail[0]) / 4, Code(tail[0]) % 4 * 16 + Code(tail[1]) / 16]
    requires s'.values == values + [Code(tail[1]) % 16 * 4 + Code(b) / 64, Code(b) % 64] && s'.acc == 0 && s'.accsz == 0
    ensures Holds(fed + [b], whole + tail + [b], [], [], s')
  {
    GroupCompletes(whole, tail, written, values, b, s'.values);
    assert |whole + tail + [b]| == |whole| + 3;
    ThreeMore(|whole|);
    WholeHolds(whole + tail + [b], s');
  }

  lemma ThreeMore(n: nat)
    requires n % 3 == 0
    ensures (n + 3) % 3 == 0
  {
  }

  /** After whole groups nothing is pending. */
  lemma WholeHolds(whole: Bytes, s: State)
    requires |whole| % 3 == 0 && s.values == EncodeValues(whole) && s.acc == 0 && s.accsz == 0
    ensures Holds(whole, whole, [], [], s)
  {
    NothingAdded(whole);
    NothingAdded(EncodeValues(whole));
  }

  lemma NothingAdded<T>(a: seq<T>)
    ensures a + [] == a
  {
  }

  lemma HoldsNext(fed: Bytes, whole: Bytes, tail: Bytes, written: seq<nat>, s: State, b: Octet)
      returns (whole': Bytes, tail': Bytes, written': seq<nat>)
    requires Holds(fed, whole, tail, written, s)
    ensures Holds(fed + [b], whole', tail', written', Drain(Take(s, b)))
  {
    if |tail| < 2 {
      var digit := GroupGoesOn(tail, written, s, b);
      HoldsWithin(fed, whole, tail, written, s, b, digit, Drain(Take(s, b)));
      whole', tail', written' := whole, tail + [b], written + [digit];
    } else {
      ThirdByte(s, Code(tail[1]), b);
      HoldsAcross(fed, whole, tail, written, s.values, b, Drain(Take(s, b)));
      whole', tail', written' := whole + tail + [b], [], [];
    }
  }

  /** After any bytes, whole groups are written, then an unfinished one. */
  lemma {:induction false} AfterHolds(fed: Bytes) returns (whole: Bytes, tail: Bytes, written: seq<nat>)
    ensures Holds(fed, whole, tail, written, After(fed))
  {
    if fed == [] {
      whole, tail, written := [], [], [];
    } else {
      var n := |fed| - 1;
      whole, tail, written := AfterHolds(fed[..n]);
      whole, tail, written := HoldsNext(fed[..n], whole, tail, written, After(fed[..n]), fed[n]);
      assert fed == fed[..n] + [fed[n]];
    }
  }

  /** How much of the accumulator is free: a power of two above every unused bit. */
  function Room(accsz: nat): nat {
    if accsz == 0 then 0x1_0000 else if accsz == 2 then 0x4000 else 0x1000
  }

  /** The bits that `|` joins are disjoint, whatever was fed before, so that it is a sum. */
  lemma BitsDisjoint(fed: Bytes, b: Octet)
    ensures var s := After(fed);
            && (s.accsz == 0 || s.accsz == 2 || s.accsz == 4)
            && s.acc % Room(s.accsz) == 0 && Shifted(b, s.accsz) < Room(s.accsz) && s.acc + Shifted(b, s.accsz) < 0x1_0000
  {
    var whole, tail, written := AfterHolds(fed);
    CarriedBits(tail, written, After(fed), b);
  }

  lemma CarriedBits(tail: Bytes, written: seq<nat>, s: State, b: Octet)
    requires Carries(tail, written, s.acc, s.accsz)
    ensures s.accsz == 0 || s.accsz == 2 || s.accsz == 4
    ensures s.acc % Room(s.accsz) == 0 && Shifted(b, s.accsz) < Room(s.accsz) && s.acc + Shifted(b, s.accsz) < 0x1_0000
  {
  }

  lemma {:induction false} DrainDrains(s: State)
    ensures Drain(s).accsz < 6
    decreases s.accsz
  {
    if s.accsz >= 6 {
      DrainDrains(PutTop(s));
    }
  }

  lemma AfterIsDrained(fed: Bytes)
    ensures After(fed).accsz < 6
  {
    if fed != [] {
      DrainDrains(Take(After(fed[..|fed| - 1]), fed[|fed| - 1]));
    }
  }

  /** What finish adds: the last digit of an unfinished group, and the padding. */
  function Ending(s: State): seq<nat> {
    if s.accsz == 0 then [] else if s.accsz == 2 then [s.acc / 1024, PAD, PAD] else [s.acc / 1024, PAD]
  }

  lemma EndingCompletes(tail: Bytes, written: seq<nat>, s: State)
    requires Carries(tail, written, s.acc, s.accsz)
    ensures written + Ending(s) == EncodeValues(tail)
  {
  }

  /** Between feeds zero, two or four bits are pending, and finishing gives the encoding. */
  lemma FinishCompletes(fed: Bytes)
    ensures var s := After(fed);
            && (s.accsz == 0 || s.accsz == 2 || s.accsz == 4)
            && s.values + Ending(s) == EncodeValues(fed)
  {
    var s := After(fed);
    var whole, tail, written := AfterHolds(fed);
    EndingCompletes(tail, written, s);
    EncodeAppends(whole, tail);
    Regroup(EncodeValues(whole), written, Ending(s));
  }

  lemma OneMore(fed: Bytes, data: Bytes, beg: nat)
    requires beg < |data|
    ensures fed + data[..beg] + [data[beg]] == fed + data[..beg + 1]
  {
    assert data[..beg + 1] == data[..beg] + [data[beg]];
    Regroup(fed, data[..beg], [data[beg]]);
  }

  /** `struct b64`; `out` is what went to the file, with the values of its characters, and
      `fed` every byte given so far. */
  class Encoder {
    var acc: nat
    var accsz: nat
    var out: string
    ghost var values: seq<nat>
    ghost var fed: Bytes

    ghost predicate Valid()
      reads this
    {
      && State(values, acc, accsz) == After(fed)
      && Sane(State(values, acc, accsz)) && out == Spell(values)
    }

    constructor ()
      ensures Valid() && fed == [] && out == []
    {
      acc, accsz, out := 0, 0, [];
      values, fed := [], [];
    }

    /** fputc of one digit or of the padding. */
    method Put(n: nat)
      requires n <= PAD && Digits(values) && out == Spell(values)
      modifies this`out, this`values
      ensures values == old(values) + [n] && Digits(values) && out == Spell(values)
    {
      out := out + [Symbol(n)];
      values := values + [n];
    }

    ghost function Now(): State
      reads this
    {
      State(values, acc, accsz)
    }

    /** Once drained, as it should be. */
    ghost predicate Midway()
      reads this
    {
      Drain(Now()) == After(fed) && Sane(Now()) && out == Spell(values)
    }

    /** The next byte goes behind the pending bits. */
    method TakeByte(b: Octet)
      requires Midway() && accsz < 6
      modifies this`acc, this`accsz, this`fed
      ensures Midway() && accsz == old(accsz) + 8 && fed == old(fed) + [b]
    {
      AfterSnoc(fed, b);
      ghost var before := Now();
      acc := (acc + Shifted(b, accsz)) % 0x1_0000;
      accsz := accsz + 8;
      fed := fed + [b];
      assert Now() == Take(before, b);
    }

    /** The top six bits are written and shifted out. */
    method PutSix()
      requires Midway() && accsz >= 6
      modifies this`acc, this`accsz, this`out, this`values
      ensures Midway() && accsz == old(accsz) - 6
    {
      ghost var before := Now();
      Put(acc / 1024);
      acc := acc * 64 % 0x1_0000;
      accsz := accsz - 6;
      assert Now() == PutTop(before);
    }

    /** feed. */
    method Feed(data: Bytes)
      requires Valid()
      modifies this
      ensures Valid() && fed == old(fed) + data
    {
      AfterIsDrained(fed);
      var beg := 0;
      while true
        invariant beg <= |data| && fed == old(fed) + data[..beg] && Midway()
        decreases |data| - beg, accsz
      {
        if accsz < 6 {
          if beg == |data| {
            break;
          }
          OneMore(old(fed), data, beg);
          TakeByte(data[beg]);
          beg := beg + 1;
        }
        PutSix();
      }
    }

    /** finish: whatever way the bytes were cut into feeds, the file now holds their encoding. */
    method Finish()
      requires Valid()
      modifies this`out, this`values
      ensures out == Encode(fed)
    {
      FinishCompletes(fed);
      if accsz != 0 {
        Put(acc / 1024);
      }
      if accsz != 0 {
        if accsz <= 4 {
          Put(PAD);
        }
        if accsz == 2 {
          Put(PAD);
        }
      }
      assert values == old(values) + Ending(State(old(values), acc, accsz));
    }
  }

  function Flatten(pieces: seq<Bytes>): Bytes {
    if pieces == [] then [] else Flatten(pieces[..|pieces| - 1]) + pieces[|pieces| - 1]
  }

  /** For any way of cutting a byte string into feeds, the output decodes back to it. */
  method EncodePieces(pieces: seq<Bytes>) returns (text: string)
    ensures text == Encode(Flatten(pieces))
    ensures Decode(text) == Some(Flatten(pieces))
  {
    var e := new Encoder();
    for i := 0 to |pieces|
      invariant e.Valid() && e.fed == Flatten(pieces[..i])
    {
      assert pieces[..i + 1][..i] == pieces[..i];
      e.Feed(pieces[i]);
    }
    assert pieces[..|pieces|] == pieces;
    e.Finish();
    text := e.out;
    DecodeEncode(Flatten(pieces));
  }
}
