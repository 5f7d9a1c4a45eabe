/** The 64-bit overflow check of `parseDecimal` as written, compared with
    the exact check the rest of the model uses.

    As written, the check tests `((integer * 10 + digit) - digit) / 10`
    against `integer` in wrapping unsigned arithmetic. That catches a wrap
    of `integer * 10` but not a wrap caused by adding a digit, at whatever
    position in the numeral: the value wraps to a small one and the digits
    after it are read on from there. So the numerals of 2^64 to 2^64 + 3
    are read as 0 to 3, and the numeral of 10 * 2^64 is read as 0. */
module Overflow {
  import opened Chars
  import opened Streams
  import opened Forms
  import opened Reader

  /** Reducing modulo 2^64 before a decimal step does not change the
      result modulo 2^64. */
  lemma ModuloStep(a: nat, d: nat)
    requires d < 10
    ensures ((a % U64_LIMIT) * 10 + d) % U64_LIMIT == (a * 10 + d) % U64_LIMIT
  {
    var q := a / U64_LIMIT;
    var r := a % U64_LIMIT;
    assert a * 10 + d == (r * 10 + d) + (10 * q) * U64_LIMIT;
    ModuloShift(r * 10 + d, 10 * q);
  }

  lemma ModuloShift(x: nat, m: nat)
    ensures (x + m * U64_LIMIT) % U64_LIMIT == x % U64_LIMIT
  {
    var y := x + m * U64_LIMIT;
    assert y == (x / U64_LIMIT + m) * U64_LIMIT + x % U64_LIMIT;
  }

  /** One step of both loops on a digit whose addition keeps the value
      below 2^64: the test as written does not fire and nothing wraps. */
  lemma LoopsStep(s: ParserStream, value: u64)
    requires IsDigit(Peek(s)) && 10 * value + DigitValue(Peek(s)) < U64_LIMIT
    ensures var next := 10 * value + DigitValue(Peek(s));
      && DecimalLoopAsWritten(s, value) == DecimalLoopAsWritten(Read(s), next)
      && DecimalLoop(s, value) == DecimalLoop(Read(s), next)
  {
    var d := DigitValue(Peek(s));
    WrapDetectedExactly(value, d);
    assert Wrap(10 * value + d) == 10 * value + d;
  }

  /** Both loops stop, successfully, at a character that is not a digit. */
  lemma LoopsStop(s: ParserStream, value: u64)
    requires !IsDigit(Peek(s))
    ensures DecimalLoopAsWritten(s, value) == Parsed(Success(value), s)
    ensures DecimalLoop(s, value) == Parsed(Success(value), s)
  {
  }

  /** When every prefix of the run fits, the loop as written and the
      exact loop agree: same outcome, same stream. */
  lemma {:induction false} LoopsAgreeWhenFits(s0: ParserStream, k: nat, value: u64)
    requires var ds := DigitRun(s0.text, s0.index);
      1 <= k <= |ds| && value == DecimalValue(ds[..k]) && DecimalValue(ds) < U64_LIMIT
    ensures DecimalLoopAsWritten(ReadN(s0, k), value) == DecimalLoop(ReadN(s0, k), value)
    decreases |DigitRun(s0.text, s0.index)| - k
  {
    var ds := DigitRun(s0.text, s0.index);
    var s := ReadN(s0, k);
    RunPeek(s0, k);
    if k == |ds| {
      LoopsStop(s, value);
    } else {
      var c := ds[k];
      PrefixStep(ds, k);
      PrefixValueBound(ds, k + 1);
      var next := 10 * value + DigitValue(c);
      LoopsStep(s, value);
      ReadNSnoc(s0, k);
      LoopsAgreeWhenFits(s0, k + 1, next);
      assert DecimalLoopAsWritten(s, value) == DecimalLoopAsWritten(ReadN(s0, k + 1), next);
      assert DecimalLoop(s, value) == DecimalLoop(ReadN(s0, k + 1), next);
    }
  }

  /** Extending a prefix by its next digit in wrapping arithmetic keeps
      the value the prefix's value modulo 2^64. */
  lemma WrappedPrefixStep(ds: string, k: nat, value: u64)
    requires AllDigits(ds) && k < |ds| && value == DecimalValue(ds[..k]) % U64_LIMIT
    ensures Wrap(value * 10 + DigitValue(ds[k])) == DecimalValue(ds[..k + 1]) % U64_LIMIT
  {
    PrefixStep(ds, k);
    WrapIsModulo(value * 10 + DigitValue(ds[k]));
    ModuloStep(DecimalValue(ds[..k]), DigitValue(ds[k]));
  }

  lemma WrapSmall(x: int)
    requires 0 <= x < U64_LIMIT
    ensures Wrap(x) == x
  {
  }

  /** One step of the loop as written on a digit when `integer * 10` does
      not wrap: the value becomes `integer * 10 + digit` modulo 2^64. */
  lemma AsWrittenStep(s: ParserStream, value: u64)
    requires IsDigit(Peek(s)) && 10 * value < U64_LIMIT
    ensures DecimalLoopAsWritten(s, value)
      == DecimalLoopAsWritten(Read(s), Wrap(10 * value + DigitValue(Peek(s))))
  {
    WrapDetectedExactly(value, DigitValue(Peek(s)));
  }

  /** The loop as written at the `k`-th digit of the run at `s0`, when
      `integer * 10` does not wrap: it continues after that digit. */
  lemma AsWrittenRunStep(s0: ParserStream, k: nat, value: u64)
    requires k < |DigitRun(s0.text, s0.index)| && 10 * value < U64_LIMIT
    ensures var ds := DigitRun(s0.text, s0.index);
      DecimalLoopAsWritten(ReadN(s0, k), value)
        == DecimalLoopAsWritten(ReadN(s0, k + 1), Wrap(value * 10 + DigitValue(ds[k])))
  {
    RunPeek(s0, k);
    AsWrittenStep(ReadN(s0, k), value);
    ReadNSnoc(s0, k);
  }

  /** The loop as written at the end of the run succeeds with the value
      it holds. */
  lemma AsWrittenRunEnd(s0: ParserStream, value: u64)
    ensures var n := |DigitRun(s0.text, s0.index)|;
      DecimalLoopAsWritten(ReadN(s0, n), value) == Parsed(Success(value), ReadN(s0, n))
  {
    RunPeek(s0, |DigitRun(s0.text, s0.index)|);
  }

  /** Whatever the loop as written accepts, it yields the run's value
      modulo 2^64. */
  lemma {:induction false} LoopYieldsModulo(s0: ParserStream, k: nat, value: u64)
    requires var ds := DigitRun(s0.text, s0.index);
      1 <= k <= |ds| && value == DecimalValue(ds[..k]) % U64_LIMIT
    ensures var ds := DigitRun(s0.text, s0.index);
      var r := DecimalLoopAsWritten(ReadN(s0, k), value);
      r.outcome.Success? ==>
        r.outcome.value == DecimalValue(ds) % U64_LIMIT && r.stream == ReadN(s0, |ds|)
    decreases |DigitRun(s0.text, s0.index)| - k
  {
    var ds := DigitRun(s0.text, s0.index);
    if k == |ds| {
      assert ds[..k] == ds;
      AsWrittenRunEnd(s0, value);
    } else {
      RunPeek(s0, k);
      var d := DigitValue(ds[k]);
      if 10 * value < U64_LIMIT {
        AsWrittenRunStep(s0, k, value);
        WrappedPrefixStep(ds, k, value);
        LoopYieldsModulo(s0, k + 1, Wrap(value * 10 + d));
      } else {
        WrapDetectedExactly(value, d);
      }
    }
  }

  /** The loop as written accepts every run whose value without its last
      digit is at most (2^64 - 1) / 10, however the last digit wraps. */
  lemma {:induction false} LoopMissesLastDigitWrap(s0: ParserStream, k: nat, value: u64)
    requires var ds := DigitRun(s0.text, s0.index);
      && 1 <= k <= |ds| && value == DecimalValue(ds[..k])
      && 10 * DecimalValue(ds[..|ds| - 1]) < U64_LIMIT
    ensures DecimalLoopAsWritten(ReadN(s0, k), value).outcome.Success?
    decreases |DigitRun(s0.text, s0.index)| - k
  {
    var ds := DigitRun(s0.text, s0.index);
    if k == |ds| {
      AsWrittenRunEnd(s0, value);
    } else {
      var next := Wrap(value * 10 + DigitValue(ds[k]));
      MissStep(s0, k, value);
      if k + 1 < |ds| {
        LoopMissesLastDigitWrap(s0, k + 1, next);
      } else {
        AsWrittenRunEnd(s0, next);
      }
    }
  }

  /** One step of `LoopMissesLastDigitWrap`: before the last digit the
      test does not fire, and the value read on is the next prefix's. */
  lemma MissStep(s0: ParserStream, k: nat, value: u64)
    requires var ds := DigitRun(s0.text, s0.index);
      && 1 <= k < |ds| && value == DecimalValue(ds[..k])
      && 10 * DecimalValue(ds[..|ds| - 1]) < U64_LIMIT
    ensures var ds := DigitRun(s0.text, s0.index);
      var next := Wrap(value * 10 + DigitValue(ds[k]));
      && DecimalLoopAsWritten(ReadN(s0, k), value) == DecimalLoopAsWritten(ReadN(s0, k + 1), next)
      && (k + 1 < |ds| ==> next == DecimalValue(ds[..k + 1]))
  {
    var ds := DigitRun(s0.text, s0.index);
    var init := ds[..|ds| - 1];
    PrefixValueBound(init, k);
    assert init[..k] == ds[..k];
    AsWrittenRunStep(s0, k, value);
    if k + 1 < |ds| {
      NextPrefixFits(ds, k, value);
    }
  }

  /** Inside the run but before its last digit, the value read so far
      still fits and nothing wraps. */
  lemma NextPrefixFits(ds: string, k: nat, value: u64)
    requires AllDigits(ds) && k + 1 < |ds| && value == DecimalValue(ds[..k])
    requires 10 * DecimalValue(ds[..|ds| - 1]) < U64_LIMIT
    ensures Wrap(value * 10 + DigitValue(ds[k])) == DecimalValue(ds[..k + 1]) < U64_LIMIT
  {
    var init := ds[..|ds| - 1];
    PrefixValueBound(init, k + 1);
    assert init[..k + 1] == ds[..k + 1];
    PrefixStep(ds, k);
    WrapSmall(value * 10 + DigitValue(ds[k]));
  }

  /** `parseDecimal` as written answers `Next`, without reading, exactly
      when there is no digit. */
  lemma AsWrittenNextIffNoDigit(s: ParserStream)
    ensures var r := ParseDecimalAsWritten(s);
      && (r.outcome.Next? <==> |DigitRun(s.text, s.index)| == 0)
      && (r.outcome.Next? ==> r.stream == s)
  {
    RunPeek(s, 0);
  }

  /** The value of the first `j` digits of a numeral. */
  function PrefixValue(ds: string, j: nat): nat
    requires AllDigits(ds) && j <= |ds|
  {
    PrefixValueBound(ds, j);
    DecimalValue(ds[..j])
  }

  /** The condition under which the test as written never fires along
      `ds` from its `k`-th digit on: no prefix of at least `k` digits, short
      of the whole numeral, reaches 2^64 when reduced modulo 2^64 and
      multiplied by ten. */
  predicate TenfoldFits(ds: string, k: nat)
    requires AllDigits(ds)
  {
    forall j :: k <= j < |ds| ==> 10 * (PrefixValue(ds, j) % U64_LIMIT) < U64_LIMIT
  }

  lemma TenfoldFitsStep(ds: string, k: nat)
    requires AllDigits(ds) && k < |ds|
    ensures TenfoldFits(ds, k) <==>
      10 * (PrefixValue(ds, k) % U64_LIMIT) < U64_LIMIT && TenfoldFits(ds, k + 1)
  {
  }

  /** Which runs the loop as written accepts from the `k`-th digit on:
      exactly those in which no later prefix trips the test. */
  lemma {:induction false} LoopAcceptsIff(s0: ParserStream, k: nat, value: u64)
    requires var ds := DigitRun(s0.text, s0.index);
      1 <= k <= |ds| && value == DecimalValue(ds[..k]) % U64_LIMIT
    ensures var ds := DigitRun(s0.text, s0.index);
      DecimalLoopAsWritten(ReadN(s0, k), value).outcome.Success? <==> TenfoldFits(ds, k)
    decreases |DigitRun(s0.text, s0.index)| - k
  {
    var ds := DigitRun(s0.text, s0.index);
    if k == |ds| {
      AsWrittenRunEnd(s0, value);
    } else {
      RunPeek(s0, k);
      TenfoldFitsStep(ds, k);
      var d := DigitValue(ds[k]);
      if 10 * value < U64_LIMIT {
        AsWrittenRunStep(s0, k, value);
        WrappedPrefixStep(ds, k, value);
        LoopAcceptsIff(s0, k + 1, Wrap(value * 10 + d));
      } else {
        WrapDetectedExactly(value, d);
      }
    }
  }

  /** `parseDecimal` as written accepts a run of digits exactly when no
      proper prefix of it, reduced modulo 2^64, reaches 2^64 when
      multiplied by ten. A prefix whose value is 2^64 or more passes when
      its reduced value is small. */
  lemma AsWrittenAcceptsIff(s: ParserStream)
    ensures var ds := DigitRun(s.text, s.index);
      |ds| > 0 ==> (ParseDecimalAsWritten(s).outcome.Success? <==> TenfoldFits(ds, 1))
  {
    var ds := DigitRun(s.text, s.index);
    RunPeek(s, 0);
    if |ds| > 0 {
      var c := Peek(s);
      assert ds[..1] == [c];
      LoopAcceptsIff(s, 1, DigitValue(c));
    }
  }

  /** A success of `parseDecimal` as written yields the value of the whole
      run modulo 2^64 and consumes the run. */
  lemma AsWrittenYieldsModulo(s: ParserStream)
    ensures var ds := DigitRun(s.text, s.index);
      var r := ParseDecimalAsWritten(s);
      r.outcome.Success? ==>
        r.outcome.value == DecimalValue(ds) % U64_LIMIT && r.stream == Consume(ReadN(s, |ds|))
  {
    var ds := DigitRun(s.text, s.index);
    RunPeek(s, 0);
    if IsDigit(Peek(s)) {
      var c := Peek(s);
      assert ds[..1] == [c];
      assert DecimalValue([c]) == DigitValue(c);
      LoopYieldsModulo(s, 1, DigitValue(c));
    }
  }

  /** On every run whose value fits in 64 bits, `parseDecimal` as written
      and the exact reader give the same answer and the same stream. */
  lemma AsWrittenAgreesWhenFits(s: ParserStream)
    requires DecimalValue(DigitRun(s.text, s.index)) < U64_LIMIT
    ensures ParseDecimalAsWritten(s) == ParseDecimal(s)
  {
    var ds := DigitRun(s.text, s.index);
    RunPeek(s, 0);
    if IsDigit(Peek(s)) {
      var c := Peek(s);
      assert ds[..1] == [c];
      PrefixValueBound(ds, 1);
      LoopsAgreeWhenFits(s, 1, DigitValue(c));
    }
  }

  /** `parseDecimal` as written accepts every run whose value without its
      last digit is at most (2^64 - 1) / 10, whether or not the run's value
      fits. */
  lemma AsWrittenAcceptsLastDigitWrap(s: ParserStream)
    requires var ds := DigitRun(s.text, s.index);
      |ds| > 0 && 10 * DecimalValue(ds[..|ds| - 1]) < U64_LIMIT
    ensures ParseDecimalAsWritten(s).outcome.Success?
  {
    var ds := DigitRun(s.text, s.index);
    RunPeek(s, 0);
    var c := Peek(s);
    assert ds[..1] == [c];
    LoopMissesLastDigitWrap(s, 1, DigitValue(c));
  }

  /** Inputs that show the discrepancy with the wrap at the last digit:
      the numeral of each of 2^64, 2^64 + 1, 2^64 + 2 and 2^64 + 3 is
      accepted as written, yielding 0 to 3, while its value does not fit in
      64 bits and the exact reader reports the overflow. */
  lemma LastDigitWrapAccepted(n: nat)
    requires U64_LIMIT <= n <= U64_LIMIT + 3
    ensures var s := NewStream(NatToDecimal(n));
      && ParseDecimalAsWritten(s).outcome == Success(n - U64_LIMIT)
      && ParseDecimal(s).outcome == Fail(["1:1" + OverflowMessage])
  {
    var text := NatToDecimal(n);
    var s := NewStream(text);
    AllDigitsRunToEnd(text);
    var ds := DigitRun(text, 0);
    assert ds == text;
    assert DecimalValue(ds[..|ds| - 1]) == U64_LIMIT / 10 by {
      LastDigitDropped(n);
    }
    AsWrittenAcceptsLastDigitWrap(s);
    AsWrittenYieldsModulo(s);
    DecimalReadsRun(s);
    ReducedOnce(n);
    NewStreamCoords(text);
  }

  /** Inputs that show the discrepancy with the wrap before the last
      digit: after the numeral of 2^64 + e (e at most 3) one more digit `d`
      is read on from the wrapped value e, so the numeral of
      10 * (2^64 + e) + d is accepted as written, yielding 10 * e + d, while
      the exact reader reports the overflow. */
  lemma MidRunWrapAccepted(n: nat, d: nat)
    requires U64_LIMIT <= n <= U64_LIMIT + 3 && d < 10
    ensures var s := NewStream(NatToDecimal(10 * n + d));
      && ParseDecimalAsWritten(s).outcome == Success(10 * (n - U64_LIMIT) + d)
      && ParseDecimal(s).outcome == Fail(["1:1" + OverflowMessage])
  {
    var text := NatToDecimal(10 * n + d);
    var s := NewStream(text);
    MidRunAsWritten(n, d);
    AllDigitsRunToEnd(text);
    DecimalReadsRun(s);
    NewStreamCoords(text);
  }

  /** The half of `MidRunWrapAccepted` about the code as written. */
  lemma MidRunAsWritten(n: nat, d: nat)
    requires U64_LIMIT <= n <= U64_LIMIT + 3 && d < 10
    ensures ParseDecimalAsWritten(NewStream(NatToDecimal(10 * n + d))).outcome
      == Success(10 * (n - U64_LIMIT) + d)
  {
    var text := NatToDecimal(10 * n + d);
    var s := NewStream(text);
    AllDigitsRunToEnd(text);
    LastDigitDropped(10 * n + d);
    MidRunPrefixesFit(text, n);
    AsWrittenAcceptsIff(s);
    AsWrittenYieldsModulo(s);
    TenfoldReduced(n, d);
  }

  /** A fresh stream reports the first line and column. */
  lemma NewStreamCoords(text: string)
    ensures CoordsToString(NewStream(text)) == "1:1"
  {
    assert NatToDecimal(1) == "1";
  }

  lemma ReducedOnce(n: nat)
    requires U64_LIMIT <= n <= U64_LIMIT + 3
    ensures n % U64_LIMIT == n - U64_LIMIT
  {
    ModuloShift(n - U64_LIMIT, 1);
  }

  lemma TenfoldReduced(n: nat, d: nat)
    requires U64_LIMIT <= n <= U64_LIMIT + 3 && d < 10
    ensures (10 * n + d) % U64_LIMIT == 10 * (n - U64_LIMIT) + d
  {
    ModuloShift(10 * (n - U64_LIMIT) + d, 10);
  }

  /** In a numeral whose digits but the last read 2^64 + e, e at most 3,
      no proper prefix trips the test as written. */
  lemma MidRunPrefixesFit(ds: string, n: nat)
    requires AllDigits(ds) && |ds| >= 1 && U64_LIMIT <= n <= U64_LIMIT + 3
    requires DecimalValue(ds[..|ds| - 1]) == n
    ensures TenfoldFits(ds, 1)
  {
    var m := |ds| - 1;
    assert m >= 1 && DecimalValue(ds[..m - 1]) == U64_LIMIT / 10 by {
      PrefixStep(ds, m - 1);
    }
    forall j | 1 <= j < |ds|
      ensures 10 * (PrefixValue(ds, j) % U64_LIMIT) < U64_LIMIT
    {
      if j < m {
        PrefixValueBound(ds[..m - 1], j);
        assert ds[..m - 1][..j] == ds[..j];
      }
    }
  }

  /** Dropping the last digit of a numeral divides its value by ten. */
  lemma LastDigitDropped(n: nat)
    requires n >= 10
    ensures var t := NatToDecimal(n);
      |t| >= 2 && DecimalValue(t[..|t| - 1]) == n / 10
  {
    var t := NatToDecimal(n);
    assert t == NatToDecimal(n / 10) + [DigitChar(n % 10)];
    assert t[..|t| - 1] == NatToDecimal(n / 10);
  }

  /** On an all-digit text the run of digits at 0 is the whole text. */
  lemma {:induction false} AllDigitsRunToEnd(text: string)
    requires AllDigits(text)
    ensures DigitRun(text, 0) == text
  {
    RunToEnd(text, 0);
  }

  lemma {:induction false} RunToEnd(text: string, i: nat)
    requires AllDigits(text) && i <= |text|
    ensures RunEnd(text, i, IsDigit) == |text|
    decreases |text| - i
  {
    if i < |text| {
      RunToEnd(text, i + 1);
    }
  }
}
