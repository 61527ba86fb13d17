/** The time-of-day decoder of the time-sync testbench: a 96-bit string holds,
    most significant bit first, 48 bits of seconds, 32 bits of nanoseconds and
    16 bits of fractional nanoseconds (the Timestamp layout of section 5.3.3 of
    IEEE 1588-2008, extended with a sub-nanosecond field). */
module Tod {
  import opened Builtins

  const TodWidth: nat := 96
  const SecWidth: nat := 48
  const NsWidth: nat := 32
  const FnsWidth: nat := 16

  function Pow2(n: nat): (r: nat)
    ensures r >= 1
  {
    if n == 0 then 1 else 2 * Pow2(n - 1)
  }

  predicate IsBinary(s: string) {
    forall i :: 0 <= i < |s| ==> s[i] == '0' || s[i] == '1'
  }

  /** The value of a string of binary digits, most significant first. */
  function BinValue(s: string): (v: nat)
    requires IsBinary(s)
    ensures v < Pow2(|s|)
  {
    if s == [] then 0
    else BinValue(s[..|s| - 1]) * 2 + (if s[|s| - 1] == '1' then 1 else 0)
  }

  /** `int(s, 2)` on the characters a bit string can hold: an empty string
      or a character other than 0/1 raises ValueError. */
  function ParseBin(s: string): (r: Result<nat>)
    ensures r.Ok? <==> |s| > 0 && IsBinary(s)
    ensures r.Ok? ==> r.value < Pow2(|s|)
    ensures r.Err? ==> r.fault == NotBinary
  {
    if |s| > 0 && IsBinary(s) then Ok(BinValue(s)) else Err(NotBinary)
  }

  /** The w-digit binary representation of v (the low w bits). */
  function ToBin(v: nat, w: nat): (s: string)
    ensures |s| == w && IsBinary(s)
  {
    if w == 0 then [] else ToBin(v / 2, w - 1) + [if v % 2 == 1 then '1' else '0']
  }

  lemma {:induction false} BinRoundTrip(v: nat, w: nat)
    requires v < Pow2(w)
    ensures BinValue(ToBin(v, w)) == v
  {
    if w > 0 {
      var s := ToBin(v, w);
      assert s[..|s| - 1] == ToBin(v / 2, w - 1);
      BinRoundTrip(v / 2, w - 1);
    }
  }

  lemma {:induction false} BinRoundTripBack(s: string)
    requires IsBinary(s)
    ensures ToBin(BinValue(s), |s|) == s
  {
    if s != [] {
      var p := s[..|s| - 1];
      var b := if s[|s| - 1] == '1' then 1 else 0;
      assert IsBinary(p);
      assert BinValue(s) == BinValue(p) * 2 + b;
      HalveDigit(BinValue(p), b);
      BinRoundTripBack(p);
      assert ToBin(BinValue(s), |s|) == ToBin(BinValue(p), |p|) + [s[|s| - 1]];
      assert s == p + [s[|s| - 1]];
    }
  }

  /** Appending a binary digit and halving again are inverse. */
  lemma HalveDigit(q: nat, b: nat)
    requires b < 2
    ensures (q * 2 + b) / 2 == q && (q * 2 + b) % 2 == b
  {
  }

  /** The three fields of a time-of-day stamp. */
  datatype Timestamp = Timestamp(sec: nat, ns: nat, fns: nat)

  predicate InRange(t: Timestamp) {
    t.sec < Pow2(SecWidth) && t.ns < Pow2(NsWidth) && t.fns < Pow2(FnsWidth)
  }

  /** The field split of `tod_to_ns`: the width check, then the three slices
      parsed in base 2. */
  function Decode(bits: string): (r: Result<Timestamp>)
    ensures r.Err? <==> |bits| != TodWidth || !IsBinary(bits)
    ensures |bits| != TodWidth ==> r == Err(WrongWidth)
    ensures |bits| == TodWidth && !IsBinary(bits) ==> r == Err(NotBinary)
    ensures r.Ok? ==> InRange(r.value)
  {
    if |bits| != TodWidth then Err(WrongWidth)
    else
      var fns := ParseBin(bits[80..96]);
      var ns := ParseBin(bits[48..80]);
      var sec := ParseBin(bits[0..48]);
      BinarySplit(bits);
      if fns.Err? || ns.Err? || sec.Err? then Err(NotBinary)
      else Ok(Timestamp(sec.value, ns.value, fns.value))
  }

  /** The three slices partition the string, so it is binary exactly when
      each slice is. */
  lemma BinarySplit(bits: string)
    requires |bits| == TodWidth
    ensures IsBinary(bits) <==> IsBinary(bits[0..48]) && IsBinary(bits[48..80]) && IsBinary(bits[80..96])
  {
    if IsBinary(bits[0..48]) && IsBinary(bits[48..80]) && IsBinary(bits[80..96]) {
      forall i | 0 <= i < |bits| ensures bits[i] == '0' || bits[i] == '1' {
        if i < 48 { assert bits[i] == bits[0..48][i]; }
        else if i < 80 { assert bits[i] == bits[48..80][i - 48]; }
        else { assert bits[i] == bits[80..96][i - 80]; }
      }
    }
  }

  /** The 96-bit string a stamp is carried in. */
  function Encode(t: Timestamp): (bits: string)
    ensures |bits| == TodWidth && IsBinary(bits)
  {
    ToBin(t.sec, SecWidth) + ToBin(t.ns, NsWidth) + ToBin(t.fns, FnsWidth)
  }

  /** Decoding inverts encoding for every stamp whose fields fit. */
  lemma DecodeEncode(t: Timestamp)
    requires InRange(t)
    ensures Decode(Encode(t)) == Ok(t)
  {
    var bits := Encode(t);
    assert bits[0..48] == ToBin(t.sec, SecWidth);
    assert bits[48..80] == ToBin(t.ns, NsWidth);
    assert bits[80..96] == ToBin(t.fns, FnsWidth);
    BinRoundTrip(t.sec, SecWidth);
    BinRoundTrip(t.ns, NsWidth);
    BinRoundTrip(t.fns, FnsWidth);
    BinarySplit(bits);
  }

  /** Encoding inverts decoding: the three slices partition the 96 bits. */
  lemma EncodeDecode(bits: string)
    requires Decode(bits).Ok?
    ensures Encode(Decode(bits).value) == bits
  {
    var a, b, c := bits[0..48], bits[48..80], bits[80..96];
    assert IsBinary(a) && IsBinary(b) && IsBinary(c) by {
      BinarySplit(bits);
    }
    var t := Decode(bits).value;
    assert t == Timestamp(BinValue(a), BinValue(b), BinValue(c));
    BinRoundTripBack(a);
    BinRoundTripBack(b);
    BinRoundTripBack(c);
    assert Encode(t) == a + b + c;
    SlicesJoin(bits);
  }

  /** The three field slices put back together give the whole string. */
  lemma SlicesJoin(bits: string)
    requires |bits| == TodWidth
    ensures bits[0..48] + bits[48..80] + bits[80..96] == bits
  {
    assert bits[0..48] + bits[48..80] == bits[0..80];
  }

  /** The nanosecond value before rounding: seconds scaled by 10^9, plus the
      nanoseconds, plus the fraction in units of 2^-16 ns. */
  function ToNs(t: Timestamp): (v: real)
    requires InRange(t)
    ensures (t.sec * 1000000000 + t.ns) as real <= v < (t.sec * 1000000000 + t.ns + 1) as real
  {
    var frac := Fraction(t.fns, Pow2(FnsWidth));
    (t.sec * 1000000000 + t.ns) as real + frac
  }

  /** f / p as a real, below one when f < p. */
  function Fraction(f: nat, p: nat): (r: real)
    requires f < p
    ensures 0.0 <= r < 1.0
  {
    var q := f as real / p as real;
    assert q * p as real == f as real;
    q
  }

  /** `tod_to_ns(b)` without the 10-digit Decimal rounding. */
  function TodToNs(bits: string): (r: Result<real>)
    ensures r.Ok? <==> |bits| == TodWidth && IsBinary(bits)
    ensures r.Err? ==> r == Err(if |bits| != TodWidth then WrongWidth else NotBinary)
    ensures r.Ok? ==> Decode(bits).Ok? && r.value == ToNs(Decode(bits).value)
  {
    var d := Decode(bits);
    if d.Err? then Err(d.fault) else Ok(ToNs(d.value))
  }
}
