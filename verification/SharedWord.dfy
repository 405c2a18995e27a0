/** The packed 64-bit word of src/include/shmemutil.hpp: who won last, and when. */
module SharedWord {
  import opened Timespecs

  const PIDBITS := 22
  const SECONDS_LIMIT := 0x1_0000_0000
  /** No stored time is more nanoseconds than this (1/1024 s, rounded down) behind the one packed. */
  const TICK := 976_562

  datatype Bundle = Bundle(winner: bv22, sec: nat, subsec: nat)

  /** The bit-field widths: 22 + 32 + 10 bits, so that equal words mean equal fields. */
  type Word = b: Bundle | b.sec < SECONDS_LIMIT && b.subsec < 1024 witness Bundle(0, 0, 0)

  /** What ftruncate(2) leaves in a fresh shared memory file. */
  const EMPTY: Word := Bundle(0, 0, 0)

  /** The low 22 bits. */
  function Low(bits: bv32): bv22 {
    (bits & 0x3f_ffff) as bv22
  }

  function PidHash(pid: bv32): bv22 {
    Low(pid) ^ Low(pid >> 22)
  }

  /** What the hash is, as one number of 32 bits. */
  lemma PidHashFolds(pid: bv32)
    ensures PidHash(pid) as bv32 == (pid ^ (pid >> 22)) & 0x3f_ffff
  {
  }

  lemma FewBits(pid: bv32)
    requires pid < 0x40_0000
    ensures (pid ^ (pid >> 22)) & 0x3f_ffff == pid
  {
  }

  /** Process IDs of at most 22 bits, all that Linux ever gives, are kept. */
  lemma PidKept(pid: bv32)
    requires pid < 0x40_0000
    ensures PidHash(pid) as bv32 == pid
  {
    PidHashFolds(pid);
    FewBits(pid);
  }

  /** The constructor's loop: xor the process ID together 22 bits at a time. */
  method FoldPid(pid: bv32) returns (winner: bv22)
    ensures winner == PidHash(pid)
  {
    winner := 0;
    var pidbits := pid;
    var left := 32;
    while left > 0
      invariant left == 32 || left == 10 || left == -12
      invariant left == 32 ==> winner == 0 && pidbits == pid
      invariant left == 10 ==> winner == Low(pid) && pidbits == pid >> 22
      invariant left == -12 ==> winner == PidHash(pid)
    {
      winner := winner ^ Low(pidbits);
      assert left == 32 ==> winner == 0 ^ Low(pidbits) == Low(pidbits);
      left := left - PIDBITS;
      pidbits := pidbits >> 22;
    }
  }

  /** bundle(pid, now): seconds modulo 2^32, nanoseconds cut to 1/1024 s (ratio 2/1953125). */
  function Pack(pid: bv32, now: Instant): Word
  {
    Bundle(PidHash(pid), now.sec % SECONDS_LIMIT, now.nsec * 2 / 1_953_125)
  }

  /** The conversion back to a timespec. */
  function Stored(w: Word): Instant
  {
    Timespec(w.sec, w.subsec * 1_953_125 / 2)
  }

  /** The clock fits the 32 bits of seconds (136 years of uptime). */
  predicate Fits(now: Instant) {
    0 <= now.sec < 0x1_0000_0000
  }

  /** Packing loses at most one tick, and never moves a time forward. */
  lemma Truncation(pid: bv32, now: Instant)
    requires Fits(now)
    ensures Nanos(now) - TICK <= Nanos(Stored(Pack(pid, now))) <= Nanos(now)
  {
    var sub := now.nsec * 2 / 1_953_125;
    assert sub * 1_953_125 <= now.nsec * 2 < (sub + 1) * 1_953_125;
    assert Stored(Pack(pid, now)) == Timespec(now.sec, sub * 1_953_125 / 2);
  }

  /** A whole tick can be lost. */
  lemma WholeTickLost(pid: bv32, sec: nat)
    requires sec < 0x1_0000_0000
    ensures var now := Timespec(sec, 1_953_124); Nanos(Stored(Pack(pid, now))) == Nanos(now) - TICK
  {
  }
}
