/** The timestamp extension (section "Timestamp extension type" of the specification). */
module Time {
  import opened Bytes

  const TIME_ID := -1
  const BILLION := 1_000_000_000
  const TWO34 := 0x4_0000_0000

  /** Seconds since the epoch as an int64, and nanoseconds within the second. */
  datatype Instant = Instant(sec: int, nsec: int)

  predicate InRange(t: Instant) { InSigned(t.sec, 8) && 0 <= t.nsec < BILLION }

  datatype Unpacked = Bad | Good(t: Instant)

  /** The payload writer: seconds below 2^34 share eight bytes with the nanoseconds, or take
      four when nothing is set above the low 32 bits; anything else takes twelve. */
  function Pack(t: Instant): bytes
    requires InRange(t)
  {
    var secs := Unsigned(t.sec, 8);
    if secs / TWO34 == 0 then
      var data := t.nsec * TWO34 + secs;
      if data / 0x1_0000_0000 == 0 then Be(data, 4) else Be(data, 8)
    else Be(t.nsec, 4) + Be(secs, 8)
  }

  /** time.Unix: nanoseconds beyond a second carry over, in 64-bit arithmetic. */
  function Unix(sec: int, nsec: nat): Instant {
    Instant(Signed(Unsigned(sec + nsec / BILLION, 8), 8), nsec % BILLION)
  }

  /** The payload reader: the layout is told by the payload length alone. */
  function Unpack(data: bytes): Unpacked {
    if |data| == 4 then Good(Unix(FromBe(data), 0))
    else if |data| == 8 then
      var n := FromBe(data);
      Good(Unix(n % TWO34, n / TWO34))
    else if |data| == 12 then
      Good(Unix(Signed(FromBe(data[4..]), 8), FromBe(data[..4])))
    else Bad
  }

  lemma PackLength(t: Instant)
    requires InRange(t)
    ensures |Pack(t)| == 4 || |Pack(t)| == 8 || |Pack(t)| == 12
  {
    hide Be;
  }

  lemma UnixInRange(sec: int, nsec: nat)
    requires InSigned(sec, 8) && nsec < BILLION
    ensures Unix(sec, nsec) == Instant(sec, nsec)
  {
    SignedOfUnsigned(sec, 8);
  }

  /** Every instant is read back from its payload. */
  lemma UnpackPack(t: Instant)
    requires InRange(t)
    ensures Unpack(Pack(t)) == Good(t)
  {
    hide Be, FromBe, Unix, Pow256, Signed, Unsigned;
    PowValues();
    var secs := Unsigned(t.sec, 8);
    SignedOfUnsigned(t.sec, 8);
    UnixInRange(t.sec, t.nsec);
    if secs / TWO34 == 0 {
      SmallSeconds(t.sec);
      var data := t.nsec * TWO34 + secs;
      if data / 0x1_0000_0000 == 0 { FromBeOfBe(data, 4); } else { FromBeOfBe(data, 8); }
    } else {
      FromBeOfBe(t.nsec, 4);
      FromBeOfBe(secs, 8);
      var b := Be(t.nsec, 4) + Be(secs, 8);
      assert b[..4] == Be(t.nsec, 4) && b[4..] == Be(secs, 8);
    }
  }

  lemma SmallSeconds(sec: int)
    requires InSigned(sec, 8) && Unsigned(sec, 8) < TWO34
    ensures Unsigned(sec, 8) == sec
  {
    PowValues();
  }

  // ---- the layouts of the specification ----

  /** Timestamp 32: the seconds. Timestamp 64: nanoseconds in the upper 30 bits, seconds in the
      lower 34. Timestamp 96: four bytes of nanoseconds, then eight of seconds. */
  lemma Layouts(t: Instant)
    requires InRange(t)
    ensures |Pack(t)| == 4 ==> t.nsec == 0 && FromBe(Pack(t)) == t.sec
    ensures |Pack(t)| == 8 ==> FromBe(Pack(t)) == t.nsec * 0x4_0000_0000 + t.sec && 0 <= t.sec < 0x4_0000_0000
    ensures |Pack(t)| == 12 ==>
      FromBe(Pack(t)[..4]) == t.nsec && Signed(FromBe(Pack(t)[4..]), 8) == t.sec
    ensures |Pack(t)| == 4 || |Pack(t)| == 8 || |Pack(t)| == 12
  {
    hide Be, FromBe, Pow256, Signed, Unsigned;
    PowValues();
    var secs := Unsigned(t.sec, 8);
    SignedOfUnsigned(t.sec, 8);
    if secs / TWO34 == 0 {
      SmallSeconds(t.sec);
      var data := t.nsec * TWO34 + secs;
      if data / 0x1_0000_0000 == 0 { FromBeOfBe(data, 4); } else { FromBeOfBe(data, 8); }
    } else {
      FromBeOfBe(t.nsec, 4);
      FromBeOfBe(secs, 8);
      var b := Be(t.nsec, 4) + Be(secs, 8);
      assert b[..4] == Be(t.nsec, 4) && b[4..] == Be(secs, 8);
    }
  }

  /** Of any payload: the length tells the layout, other lengths are refused, and what is read is
      the same point in time, in whole seconds and nanoseconds below a second. */
  lemma UnpackMeans(data: bytes)
    ensures Unpack(data).Good? <==> |data| in {4, 8, 12}
    ensures |data| == 4 ==> Unpack(data) == Good(Instant(FromBe(data), 0))
    ensures |data| == 8 ==> SamePoint(Unpack(data).t, FromBe(data) % 0x4_0000_0000, FromBe(data) / 0x4_0000_0000)
    ensures |data| == 12 ==> SamePoint(Unpack(data).t, Signed(FromBe(data[4..]), 8), FromBe(data[..4]))
  {
    hide FromBe, Pow256, Signed, Unsigned;
    PowValues();
    FromBeBound(data);
    if |data| == 4 { UnixInRange(FromBe(data), 0); }
    if |data| == 8 { UnixPoint(FromBe(data) % TWO34, FromBe(data) / TWO34); }
    if |data| == 12 { UnixPoint(Signed(FromBe(data[4..]), 8), FromBe(data[..4])); }
  }

  /** t is sec seconds and nsec nanoseconds, with 64-bit seconds that wrap around. */
  ghost predicate SamePoint(t: Instant, sec: int, nsec: nat) {
    && 0 <= t.nsec < 1_000_000_000 && -TWO63 <= t.sec < TWO63
    && exists wraps: int ::
         (t.sec + wraps * TWO64) * 1_000_000_000 + t.nsec == sec * 1_000_000_000 + nsec
  }

  lemma UnixPoint(sec: int, nsec: nat)
    ensures SamePoint(Unix(sec, nsec), sec, nsec)
  {
    hide Signed, Unsigned;
    PowValues();
    var s := sec + nsec / BILLION;
    UnsignedIsCongruent(s, 8);
    SignedIsCongruent(Unsigned(s, 8), 8);
    var x := Signed(Unsigned(s, 8), 8);
    var wraps := (s - x) / TWO64;
    assert x + wraps * TWO64 == s;
    assert (x + wraps * TWO64) * 1_000_000_000 + nsec % BILLION == sec * 1_000_000_000 + nsec;
  }

  // ---- the layout is the shortest one ----

  /** No payload that reads back as t is shorter than the one written. */
  ghost predicate Shortest(t: Instant)
    requires InRange(t)
  {
    forall p: bytes :: Unpack(p) == Good(t) ==> |Pack(t)| <= |p|
  }

  /** The layout chosen is the shortest that can hold the instant, with one exception: the
      reader also takes eight-byte payloads whose nanoseconds exceed a second, which reach into
      second 2^34 where the writer already needs twelve bytes. */
  lemma PackShortest(t: Instant)
    requires InRange(t)
    ensures Shortest(t) <==> !(t.sec == TWO34 && t.nsec < 0x4000_0000 - BILLION)
  {
    hide Unpack, Pack;
    if t.sec == TWO34 && t.nsec < 0x4000_0000 - BILLION {
      var p := Overlong(t);
      assert |p| < |Pack(t)|;
    } else {
      forall p: bytes | Unpack(p) == Good(t) ensures |Pack(t)| <= |p| {
        NoShorter(t, p);
      }
    }
  }

  lemma PackSize(t: Instant)
    requires InRange(t)
    ensures 0 <= t.sec < 0x1_0000_0000 && t.nsec == 0 ==> |Pack(t)| == 4
    ensures 0 <= t.sec < TWO34 ==> |Pack(t)| <= 8
    ensures t.sec >= TWO34 ==> |Pack(t)| == 12
    ensures |Pack(t)| <= 12
  {
    hide Be;
    PowValues();
  }

  lemma UnixCarry(sec: nat, nsec: nat)
    requires sec < TWO34 && nsec < 0x1_0000_0000
    ensures Unix(sec, nsec) == Instant(sec + nsec / BILLION, nsec % BILLION)
  {
    PowValues();
    assert InSigned(sec + nsec / BILLION, 8);
    SignedOfUnsigned(sec + nsec / BILLION, 8);
  }

  lemma NoShorter(t: Instant, p: bytes)
    requires InRange(t) && Unpack(p) == Good(t)
    requires !(t.sec == TWO34 && t.nsec < 0x4000_0000 - BILLION)
    ensures |Pack(t)| <= |p|
  {
    hide Pack, Unix, FromBe, Pow256;
    PackSize(t);
    PowValues();
    FromBeBound(p);
    if |p| == 4 { UnixCarry(FromBe(p), 0); }
    if |p| == 8 { UnixCarry(FromBe(p) % TWO34, FromBe(p) / TWO34); }
  }

  lemma Overlong(t: Instant) returns (p: bytes)
    requires InRange(t) && t.sec == TWO34 && t.nsec < 0x4000_0000 - BILLION
    ensures Unpack(p) == Good(t) && |p| < |Pack(t)|
  {
    hide Pack, Unix, FromBe, Pow256;
    PackSize(t);
    PowValues();
    var n := (t.nsec + BILLION) * TWO34 + (TWO34 - 1);
    p := Be(n, 8);
    FromBeOfBe(n, 8);
    UnixCarry(TWO34 - 1, t.nsec + BILLION);
  }
}
