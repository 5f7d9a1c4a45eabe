/** The recursive-descent reader (src/parser.cpp).

    Every sub-parser takes the one shared stream and gives back a tri-state
    outcome together with the stream as it left it: `Success` with a value,
    `Next` (this alternative does not apply; try the next one) or `Fail`
    with diagnostics. `Next` is not a rollback: the identifier rule can read
    characters and still answer `Next`. Alternatives are tried in order and
    the first answer other than `Next` wins. */
module Reader {
  import opened Chars
  import opened Optional
  import opened Streams
  import opened Forms

  /** `ParserStatus` without the stream. A default status is `Next`, which
      carries no diagnostics. */
  datatype Outcome<T> = Success(value: T) | Next | Fail(errors: seq<string>)

  datatype Parsed<T> = Parsed(outcome: Outcome<T>, stream: ParserStream)

  function ErrorsOf<T>(o: Outcome<T>): seq<string> {
    match o
    case Fail(es) => es
    case _ => []
  }

  /** The status a sub-parser starts from: not applicable, no
      diagnostics. */
  function DefaultStatus<T>(): (o: Outcome<T>)
    ensures !o.Success? && !o.Fail? && ErrorsOf(o) == []
  {
    Next
  }

  const OverflowMessage := ": Integer larger than 64 bits."
  const UnmatchedMessage := ": Unmatched parentheses."
  const AnnotationMessage := ": Expected type annotation."

  /** The first position at or after `i` whose character does not satisfy
      `p`, or the end of the text. */
  function RunEnd(text: string, i: nat, p: char -> bool): (j: nat)
    ensures i <= j
    ensures i <= |text| ==> j <= |text|
    ensures i > |text| ==> j == i
    ensures j < |text| ==> !p(text[j])
    decreases |text| - i
  {
    if i >= |text| || !p(text[i]) then i else RunEnd(text, i + 1, p)
  }

  /** Every character of the run satisfies `p`. */
  lemma {:induction false} RunSatisfies(text: string, i: nat, p: char -> bool)
    ensures forall k :: i <= k < RunEnd(text, i, p) ==> k < |text| && p(text[k])
    decreases |text| - i
  {
    if i < |text| && p(text[i]) {
      var j := RunEnd(text, i + 1, p);
      assert RunEnd(text, i, p) == j;
      RunSatisfies(text, i + 1, p);
      forall k | i <= k < j
        ensures k < |text| && p(text[k])
      {
        if k > i {
          assert i + 1 <= k < j;
        }
      }
    } else {
      assert RunEnd(text, i, p) == i;
    }
  }

  // ---------------------------------------------------------------- whitespace

  /** The loop of `parseWhitespace`: reads while the current character is
      whitespace and the input is not finished. */
  function SkipSpaces(s: ParserStream): (r: ParserStream)
    ensures r.index >= s.index
    ensures r == ReadN(s, r.index - s.index)
    ensures r.index == RunEnd(s.text, s.index, IsSpace)
    decreases Remaining(s)
  {
    if !IsSpace(Peek(s)) || IsFinished(s) then s
    else
      var r := SkipSpaces(Read(s));
      ReadNShift(s, r.index - s.index - 1);
      r
  }

  /** `parseWhitespace`: skips the maximal run of whitespace, succeeds when
      it stops at a character (zero whitespace is a success) and fails,
      without diagnostics, when it reaches the end of input. It always
      consumes. */
  function ParseWhitespace(s: ParserStream): (r: Parsed<()>)
    ensures r.stream.index == RunEnd(s.text, s.index, IsSpace)
    ensures r.stream == Consume(ReadN(s, r.stream.index - s.index))
    ensures r.outcome == Success(()) || r.outcome == Fail([])
    ensures r.outcome.Success? <==> r.stream.index < |s.text|
    ensures s.Wf() ==> Advances(s, r.stream)
  {
    var t := SkipSpaces(s);
    Parsed(if !IsSpace(Peek(t)) then Success(()) else Fail([]), Consume(t))
  }

  // ---------------------------------------------------------------- integers

  /** The maximal run of digits at position `i`. */
  function DigitRun(text: string, i: nat): (ds: string)
    ensures AllDigits(ds)
    ensures i + |ds| <= |text| || ds == []
    ensures i <= |text| ==> ds == text[i..RunEnd(text, i, IsDigit)]
  {
    if i <= |text| then
      RunSatisfies(text, i, IsDigit);
      text[i..RunEnd(text, i, IsDigit)]
    else []
  }

  /** The characters a reader sees along the run of digits at `s0`: its
      `k`-th digit after `k` reads, and a non-digit after the whole run. */
  lemma RunPeek(s0: ParserStream, k: nat)
    requires k <= |DigitRun(s0.text, s0.index)|
    ensures var ds := DigitRun(s0.text, s0.index);
      && (k < |ds| ==> IsDigit(ds[k]) && Peek(ReadN(s0, k)) == ds[k])
      && (k == |ds| ==> !IsDigit(Peek(ReadN(s0, k))))
  {
    var ds := DigitRun(s0.text, s0.index);
    if s0.index <= |s0.text| {
      var j := RunEnd(s0.text, s0.index, IsDigit);
      assert ds == s0.text[s0.index..j];
      if k < |ds| {
        assert ds[k] == s0.text[s0.index + k];
      }
    }
  }

  /** Extending a prefix of a numeral by its next digit. */
  lemma PrefixStep(ds: string, k: nat)
    requires AllDigits(ds) && k < |ds|
    ensures DecimalValue(ds[..k + 1]) == 10 * DecimalValue(ds[..k]) + DigitValue(ds[k])
  {
    assert ds[..k + 1] == ds[..k] + [ds[k]];
    DecimalValueGrows(ds[..k], ds[k]);
  }

  /** The value of a numeral is at least the value of each of its
      prefixes. */
  lemma {:induction false} PrefixValueBound(ds: string, k: nat)
    requires AllDigits(ds) && k <= |ds|
    ensures AllDigits(ds[..k]) && DecimalValue(ds[..k]) <= DecimalValue(ds)
    decreases |ds|
  {
    if k == |ds| {
      assert ds[..k] == ds;
    } else {
      var init := ds[..|ds| - 1];
      PrefixValueBound(init, k);
      assert init[..k] == ds[..k];
      assert DecimalValue(ds) == 10 * DecimalValue(init) + DigitValue(ds[|ds| - 1]);
    }
  }

  /** The digit loop of `parseDecimal`, as corrected: it fails as soon as
      the value read so far no longer fits in 64 bits. */
  function DecimalLoop(s: ParserStream, value: u64): (r: Parsed<u64>)
    ensures r.outcome.Success? || r.outcome.Fail?
    ensures r.stream.text == s.text && r.stream.index >= s.index && r.stream.link == s.link
    ensures s.Wf() ==> r.stream.Wf()
    decreases Remaining(s)
  {
    var c := Peek(s);
    if !IsDigit(c) then Parsed(Success(value), s)
    else
      var next := 10 * value + DigitValue(c);
      if next >= U64_LIMIT then Parsed(Fail([CoordsToString(s) + OverflowMessage]), s)
      else DecimalLoop(Read(s), next)
  }

  /** After `k` digits of a run whose value fits, the loop reads the rest
      of the run and ends with the run's value. */
  lemma {:induction false} DecimalLoopFits(s0: ParserStream, k: nat, value: u64)
    requires var ds := DigitRun(s0.text, s0.index);
      1 <= k <= |ds| && value == DecimalValue(ds[..k]) && DecimalValue(ds) < U64_LIMIT
    ensures var ds := DigitRun(s0.text, s0.index);
      DecimalLoop(ReadN(s0, k), value) == Parsed(Success(DecimalValue(ds)), ReadN(s0, |ds|))
    decreases |DigitRun(s0.text, s0.index)| - k
  {
    var ds := DigitRun(s0.text, s0.index);
    var s := ReadN(s0, k);
    RunPeek(s0, k);
    if k == |ds| {
      assert ds[..k] == ds;
    } else {
      PrefixStep(ds, k);
      PrefixValueBound(ds, k + 1);
      var next := 10 * value + DigitValue(ds[k]);
      ReadNSnoc(s0, k);
      assert DecimalLoop(s, value) == DecimalLoop(ReadN(s0, k + 1), next);
      DecimalLoopFits(s0, k + 1, next);
    }
  }

  /** In a numeral whose value does not fit in 64 bits, the number of
      leading digits, from `k` on, whose value still fits: the digit after
      them is the first one whose addition overflows. */
  function OverflowPoint(ds: string, k: nat): (m: nat)
    requires AllDigits(ds) && k < |ds|
    requires DecimalValue(ds[..k]) < U64_LIMIT <= DecimalValue(ds)
    ensures k <= m < |ds|
    ensures DecimalValue(ds[..m]) < U64_LIMIT <= DecimalValue(ds[..m + 1])
    decreases |ds| - k
  {
    PrefixStep(ds, k);
    if DecimalValue(ds[..k + 1]) >= U64_LIMIT then k
    else
      OverflowPoint(ds, k + 1)
  }

  /** After `k` digits of a run whose value does not fit, the loop stops
      at the first digit that would overflow, with the digits before it
      read, and reports the overflow at the start coordinates. */
  lemma {:induction false} DecimalLoopOverflows(s0: ParserStream, k: nat, value: u64)
    requires var ds := DigitRun(s0.text, s0.index);
      1 <= k < |ds| && value == DecimalValue(ds[..k]) && DecimalValue(ds) >= U64_LIMIT
    ensures var ds := DigitRun(s0.text, s0.index);
      DecimalLoop(ReadN(s0, k), value)
        == Parsed(Fail([CoordsToString(s0) + OverflowMessage]), ReadN(s0, OverflowPoint(ds, k)))
    decreases |DigitRun(s0.text, s0.index)| - k
  {
    var ds := DigitRun(s0.text, s0.index);
    var next := 10 * value + DigitValue(ds[k]);
    var failed := Fail([CoordsToString(s0) + OverflowMessage]);
    OverflowStep(s0, ds, k, value, next);
    if next < U64_LIMIT {
      DecimalLoopOverflows(s0, k + 1, next);
      assert DecimalLoop(ReadN(s0, k), value) == DecimalLoop(ReadN(s0, k + 1), next);
      assert OverflowPoint(ds, k) == OverflowPoint(ds, k + 1);
    } else {
      assert OverflowPoint(ds, k) == k;
      assert DecimalLoop(ReadN(s0, k), value) == Parsed(failed, ReadN(s0, k));
    }
  }

  /** One step of `DecimalLoopOverflows`: below the limit the loop reads
      on with the next prefix's value, and at the limit it fails there. */
  lemma OverflowStep(s0: ParserStream, ds: string, k: nat, value: u64, next: int)
    requires ds == DigitRun(s0.text, s0.index)
    requires 1 <= k < |ds| && value == DecimalValue(ds[..k]) && DecimalValue(ds) >= U64_LIMIT
    requires next == 10 * value + DigitValue(ds[k])
    ensures next == DecimalValue(ds[..k + 1])
    ensures next < U64_LIMIT ==>
      && DecimalLoop(ReadN(s0, k), value) == DecimalLoop(ReadN(s0, k + 1), next)
      && OverflowPoint(ds, k) == OverflowPoint(ds, k + 1)
    ensures next >= U64_LIMIT ==>
      && OverflowPoint(ds, k) == k
      && DecimalLoop(ReadN(s0, k), value)
           == Parsed(Fail([CoordsToString(s0) + OverflowMessage]), ReadN(s0, k))
  {
    var s := ReadN(s0, k);
    RunPeek(s0, k);
    PrefixStep(ds, k);
    if next < U64_LIMIT {
      ReadNSnoc(s0, k);
    } else {
      SameStartSameCoords(s, s0);
    }
  }

  /** `parseDecimal` with an exact overflow check: `Next` without reading
      when the current character is not a digit; otherwise the digit loop,
      consuming on success. What it reads is stated by `DecimalReadsRun`. */
  function ParseDecimal(s: ParserStream): (r: Parsed<u64>)
    ensures r.outcome.Next? <==> !IsDigit(Peek(s))
    ensures r.outcome.Next? ==> r.stream == s
    ensures s.Wf() ==> Advances(s, r.stream)
    ensures r.outcome.Success? ==> r.stream.index > s.index
  {
    var c := Peek(s);
    if !IsDigit(c) then Parsed(Next, s)
    else
      var r := DecimalLoop(Read(s), DigitValue(c));
      if r.outcome.Success? then Parsed(r.outcome, Consume(r.stream)) else r
  }

  /** `parseDecimal` reads the maximal run of digits: `Next` without
      reading when there is none; the run's value, with the run consumed,
      when that fits in 64 bits; and otherwise the overflow diagnostic at
      the start coordinates, with the reading stopped before the first
      digit whose addition overflows. */
  lemma DecimalReadsRun(s: ParserStream)
    ensures var ds := DigitRun(s.text, s.index);
      var r := ParseDecimal(s);
      && (r.outcome.Next? <==> |ds| == 0)
      && (r.outcome.Success? <==> |ds| > 0 && DecimalValue(ds) < U64_LIMIT)
      && (r.outcome.Success? ==>
            r.outcome.value == DecimalValue(ds) && r.stream == Consume(ReadN(s, |ds|)))
      && (r.outcome.Fail? ==>
            && r.outcome.errors == [CoordsToString(s) + OverflowMessage]
            && s.index < r.stream.index < s.index + |ds|
            && var m := r.stream.index - s.index;
               r.stream == ReadN(s, m)
               && DecimalValue(ds[..m]) < U64_LIMIT <= DecimalValue(ds[..m + 1]))
  {
    var c := Peek(s);
    RunPeek(s, 0);
    if IsDigit(c) {
      var ds := DigitRun(s.text, s.index);
      assert ds[..1] == [c];
      ReadNShift(s, 0);
      if DecimalValue(ds) < U64_LIMIT {
        DecimalLoopFits(s, 1, DigitValue(c));
      } else {
        DecimalLoopOverflows(s, 1, DigitValue(c));
        var m := OverflowPoint(ds, 1);
        assert (s.index + m) - s.index == m;
      }
    }
  }

  /** Reduction modulo 2^64: the value an unsigned 64-bit computation
      keeps of `x`, for a negative `x` as well. */
  function Wrap(x: int): (r: u64)
    decreases if x < 0 then 1 else 0, if x < 0 then -x else x
  {
    if x < 0 then Wrap(x + U64_LIMIT)
    else if x < U64_LIMIT then x
    else Wrap(x - U64_LIMIT)
  }

  /** `Wrap` is the Euclidean remainder by 2^64. */
  lemma {:induction false} WrapIsModulo(x: int)
    ensures Wrap(x) == x % U64_LIMIT
    decreases if x < 0 then 1 else 0, if x < 0 then -x else x
  {
    if x < 0 {
      WrapIsModulo(x + U64_LIMIT);
      assert (x + U64_LIMIT) % U64_LIMIT == x % U64_LIMIT;
    } else if x >= U64_LIMIT {
      WrapIsModulo(x - U64_LIMIT);
      assert (x - U64_LIMIT) % U64_LIMIT == x % U64_LIMIT;
    }
  }

  /** The overflow test of src/parser.cpp in 64-bit unsigned arithmetic:
      `newInteger = integer * 10 + digit` wraps, and overflow is reported
      when `(newInteger - digit) / 10 != integer`. */
  predicate WrapDetected(value: u64, d: nat)
    requires d < 10
  {
    var next := Wrap(value * 10 + d);
    Wrap(next - d) / 10 != value
  }

  /** The test reports overflow exactly when `integer * 10` exceeds
      2^64 - 1; a wrap caused by adding the digit alone goes unnoticed. */
  lemma WrapDetectedExactly(value: u64, d: nat)
    requires d < 10
    ensures WrapDetected(value, d) <==> 10 * value >= U64_LIMIT
  {
    var p := 10 * value;
    var next := Wrap(p + d);
    if p < U64_LIMIT {
      if p + d < U64_LIMIT {
        assert next == p + d;
        assert Wrap(next - d) == p;
      } else {
        assert Wrap(p + d - U64_LIMIT) == p + d - U64_LIMIT;
        assert next == p + d - U64_LIMIT;
        assert Wrap(p) == p;
        assert Wrap(next - d) == p;
      }
    } else {
      assert Wrap(next - d) < U64_LIMIT;
      assert value >= U64_LIMIT / 10 + 1;
    }
  }

  /** The digit loop of `parseDecimal` as written: it ends in a success
      or a failure, never moving back. */
  function DecimalLoopAsWritten(s: ParserStream, value: u64): (r: Parsed<u64>)
    ensures r.outcome.Success? || r.outcome.Fail?
    ensures r.stream.text == s.text && r.stream.index >= s.index && r.stream.link == s.link
    decreases Remaining(s)
  {
    var c := Peek(s);
    if !IsDigit(c) then Parsed(Success(value), s)
    else
      var d := DigitValue(c);
      if WrapDetected(value, d) then Parsed(Fail([CoordsToString(s) + OverflowMessage]), s)
      else DecimalLoopAsWritten(Read(s), Wrap(value * 10 + d))
  }

  /** `parseDecimal` as written: `Next` without reading exactly when the
      current character is not a digit; a success reads at least one
      character. Its outcome on a run of digits is stated in the `Overflow`
      module. */
  function ParseDecimalAsWritten(s: ParserStream): (r: Parsed<u64>)
    ensures r.outcome.Next? <==> !IsDigit(Peek(s))
    ensures r.outcome.Next? ==> r.stream == s
    ensures r.outcome.Success? ==> r.stream.index > s.index
  {
    var c := Peek(s);
    if !IsDigit(c) then Parsed(Next, s)
    else
      var r := DecimalLoopAsWritten(Read(s), DigitValue(c));
      if r.outcome.Success? then Parsed(r.outcome, Consume(r.stream)) else r
  }

  /** `parseHexadecimal`: reserved; it never applies and reads nothing. */
  function ParseHexadecimal(s: ParserStream): (r: Parsed<u64>)
    ensures !r.outcome.Success? && !r.outcome.Fail?
    ensures r.stream == s
  {
    Parsed(Next, s)
  }

  /** `parseInt`: the decimal reader's answer, with a success tagged as an
      integer form and consumed once more, since the hexadecimal reader
      never applies. */
  function ParseInt(s: ParserStream): (r: Parsed<Form>)
    ensures r.outcome.Next? <==> !IsDigit(Peek(s))
    ensures r.outcome.Next? ==> r.stream == s
    ensures r.outcome.Success? ==> r.outcome.value.Integer? && r.outcome.value.annotation.None?
    ensures s.Wf() ==> Advances(s, r.stream)
    ensures r.outcome.Success? ==> r.stream.index > s.index
  {
    var d := ParseDecimal(s);
    var e := if d.outcome.Next? then ParseHexadecimal(d.stream) else d;
    match e.outcome
    case Success(n) => Parsed(Success(Integer(n, None)), Consume(e.stream))
    case Next => Parsed(Next, e.stream)
    case Fail(es) => Parsed(Fail(es), e.stream)
  }

  /** `parseInt` reads an integer form exactly as `parseDecimal` reads a
      run of digits; the second consume changes nothing. */
  lemma IntReadsRun(s: ParserStream)
    ensures var ds := DigitRun(s.text, s.index);
      var r := ParseInt(s);
      && (r.outcome.Next? <==> |ds| == 0)
      && (r.outcome.Success? <==> |ds| > 0 && DecimalValue(ds) < U64_LIMIT)
      && (r.outcome.Success? ==>
            r.outcome.value == Integer(DecimalValue(ds), None)
            && r.stream == Consume(ReadN(s, |ds|)))
      && (r.outcome.Fail? ==>
            r.outcome.errors == ParseDecimal(s).outcome.errors && r.stream == ParseDecimal(s).stream)
  {
    DecimalReadsRun(s);
  }

  // ---------------------------------------------------------------- identifiers

  /** A character that may start an identifier: printable and not a
      parenthesis (a colon may start one). */
  predicate NameStart(c: char) {
    IsPrint(c) && (c == ':' || !IsSpecial(c))
  }

  /** A character that ends an identifier successfully. */
  predicate NameStop(c: char) {
    IsSpace(c) || IsSpecial(c)
  }

  /** The loop of `parseIdentifier`. */
  function NameLoop(s: ParserStream, name: string): (r: Parsed<Form>)
    ensures r.outcome.Success? ==> r.outcome.value.Identifier? && r.outcome.value.annotation.None?
    ensures !r.outcome.Fail?
    ensures s.Wf() ==> Advances(s, r.stream)
    ensures r.stream.index >= s.index
    decreases Remaining(s)
  {
    var c := Peek(s);
    if NameStop(c) then Parsed(Success(Identifier(name, None)), Consume(s))
    else if !IsPrint(c) then Parsed(Next, s)
    else NameLoop(Read(s), name + [c])
  }

  /** One turn of the identifier loop: stop with the name at a stop
      character, answer `Next` at a non-printable character, otherwise
      read the character onto the name. */
  lemma NameLoopAt(s: ParserStream, name: string)
    ensures NameStop(Peek(s)) ==>
      NameLoop(s, name) == Parsed(Success(Identifier(name, None)), Consume(s))
    ensures !NameStop(Peek(s)) && !IsPrint(Peek(s)) ==> NameLoop(s, name) == Parsed(Next, s)
    ensures !NameStop(Peek(s)) && IsPrint(Peek(s)) ==>
      NameLoop(s, name) == NameLoop(Read(s), name + [Peek(s)])
  {
  }

  /** The identifier loop at a character that does not continue a name. */
  lemma NameLoopStopsAtRunEnd(s: ParserStream, name: string)
    requires s.index <= |s.text| && RunEnd(s.text, s.index, NameChar) == s.index
    ensures var j := s.index;
      NameLoop(s, name)
        == if j == |s.text| || NameStop(s.text[j])
           then Parsed(Success(Identifier(name + s.text[s.index..j], None)), Consume(s))
           else Parsed(Next, s)
  {
    assert s.text[s.index..s.index] == [] && name + [] == name;
    NameLoopAt(s, name);
    if s.index < |s.text| {
      assert Peek(s) == s.text[s.index] && !NameChar(s.text[s.index]);
    }
  }

  /** From any position the identifier loop reads the run of name
      characters onto `name`, then succeeds at a stop character or the end
      of input, or answers `Next` at a non-printable character without
      consuming. */
  lemma {:induction false} NameLoopReadsRun(s: ParserStream, name: string)
    requires s.index <= |s.text|
    ensures var j := RunEnd(s.text, s.index, NameChar);
      var t := ReadN(s, j - s.index);
      NameLoop(s, name)
        == if j == |s.text| || NameStop(s.text[j])
           then Parsed(Success(Identifier(name + s.text[s.index..j], None)), Consume(t))
           else Parsed(Next, t)
    decreases |s.text| - s.index
  {
    var j := RunEnd(s.text, s.index, NameChar);
    if s.index < j {
      var c := s.text[s.index];
      assert Peek(s) == c && NameChar(c);
      NameLoopAt(s, name);
      var s' := Read(s);
      assert RunEnd(s'.text, s'.index, NameChar) == j;
      NameLoopReadsRun(s', name + [c]);
      assert (name + [c]) + s.text[s.index + 1..j] == name + s.text[s.index..j];
      ReadNShift(s, j - s.index - 1);
      assert ReadN(s', j - s'.index) == ReadN(s, j - s.index);
    } else {
      NameLoopStopsAtRunEnd(s, name);
    }
  }

  /** `parseIdentifier`: `Next` without reading unless the current
      character may start an identifier; otherwise the identifier loop on
      that character. What it reads is stated by `IdentifierReadsRun`. */
  function ParseIdentifier(s: ParserStream): (r: Parsed<Form>)
    ensures !NameStart(Peek(s)) ==> r == Parsed(Next, s)
    ensures r.outcome.Success? ==> r.outcome.value.Identifier? && r.outcome.value.annotation.None?
    ensures !r.outcome.Fail?
    ensures s.Wf() ==> Advances(s, r.stream)
    ensures r.outcome.Success? ==> r.stream.index > s.index
  {
    var c := Peek(s);
    if !NameStart(c) then Parsed(Next, s)
    else NameLoop(Read(s), [c])
  }

  /** `parseIdentifier` reads the run of name characters up to whitespace,
      a delimiter or the end of input, or answers `Next` with the
      characters read left in place when a non-printable character comes
      first. At the end of input it reads the space the stream shows. */
  lemma IdentifierReadsRun(s: ParserStream)
    ensures var r := ParseIdentifier(s);
      && (NameStart(Peek(s)) && IsFinished(s) ==>
            r == Parsed(Success(Identifier(" ", None)), Consume(Read(s))))
      && (NameStart(Peek(s)) && !IsFinished(s) ==>
            var j := RunEnd(s.text, s.index + 1, NameChar);
            if j == |s.text| || NameStop(s.text[j])
            then r == Parsed(Success(Identifier(s.text[s.index..j], None)), Consume(ReadN(s, j - s.index)))
            else r == Parsed(Next, ReadN(s, j - s.index)))
  {
    var c := Peek(s);
    if NameStart(c) && !IsFinished(s) {
      assert c == s.text[s.index];
      var j := RunEnd(s.text, s.index + 1, NameChar);
      var s' := Read(s);
      var t := ReadN(s, j - s.index);
      assert s'.text == s.text && s'.index == s.index + 1;
      assert RunEnd(s'.text, s'.index, NameChar) == j;
      NameLoopReadsRun(s', [c]);
      assert s'.text[s'.index..j] == s.text[s.index + 1..j];
      assert [c] + s.text[s.index + 1..j] == s.text[s.index..j];
      ReadNShift(s, j - s.index - 1);
      assert ReadN(s', j - s'.index) == t;
      assert ParseIdentifier(s) == NameLoop(s', [c]);
    }
  }

  /** An identifier read from the text starts with a character that may
      start one and continues with name characters only. */
  lemma IdentifierShape(s: ParserStream)
    ensures var r := ParseIdentifier(s);
      r.outcome.Success? ==>
        var name := r.outcome.value.name;
        && |name| >= 1 && NameStart(name[0])
        && forall k :: 1 <= k < |name| ==> NameChar(name[k])
  {
    var c := Peek(s);
    IdentifierReadsRun(s);
    if NameStart(c) && !IsFinished(s) {
      var j := RunEnd(s.text, s.index + 1, NameChar);
      var name := s.text[s.index..j];
      RunSatisfies(s.text, s.index + 1, NameChar);
      assert name[0] == c;
      assert forall k :: 1 <= k < |name| ==> name[k] == s.text[s.index + k];
    }
  }

  // ---------------------------------------------------------------- forms

  /** The facts about the stream every sub-parser keeps: same text, the
      index never moves back, the committed index never moves back, and a
      copy stays a copy. */
  predicate Advances(s: ParserStream, r: ParserStream) {
    && r.Wf()
    && r.text == s.text
    && r.index >= s.index
    && ParentIndex(r) >= ParentIndex(s)
    && r.link.Child? == s.link.Child?
  }

  /** `parseCompoundForm`: an element, then the annotation lookahead. */
  function ParseCompoundForm(s: ParserStream): (r: Parsed<Form>)
    requires s.Wf()
    ensures Advances(s, r.stream)
    ensures r.outcome.Success? && !IsFinished(s) ==> r.stream.index > s.index
    decreases Remaining(s), 3
  {
    var e := ParseElement(s);
    if e.outcome.Success? then Annotate(e.outcome.value, e.stream) else e
  }

  /** The alternatives of `parseCompoundForm`: integer, identifier, then
      parenthesised form. */
  function ParseElement(s: ParserStream): (r: Parsed<Form>)
    requires s.Wf()
    ensures Advances(s, r.stream)
    ensures r.outcome.Success? && !IsFinished(s) ==> r.stream.index > s.index
    ensures r.outcome.Success? ==> r.outcome.value.annotation.None?
    decreases Remaining(s), 2
  {
    var a := ParseInt(s);
    if !a.outcome.Next? then a
    else
      var b := ParseIdentifier(a.stream);
      if !b.outcome.Next? then b
      else ParseForm(b.stream)
  }

  /** The type-annotation lookahead of `parseCompoundForm` after element
      `f`, on a copy `c` of the enclosing stream `e`. */
  function Annotate(f: Form, e: ParserStream): (r: Parsed<Form>)
    requires e.Wf()
    ensures Advances(e, r.stream)
    ensures !r.outcome.Next?
    ensures r.outcome.Success? ==> r.outcome.value.(annotation := f.annotation) == f
    decreases Remaining(e), 1
  {
    var w := ParseWhitespace(Copy(e));
    if w.outcome.Fail? || Peek(w.stream) != ':' then
      Parsed(Success(f), Consume(Release(e, w.stream)))
    else
      var c := Read(w.stream);
      if Peek(c) != ':' then Parsed(Success(f), Consume(Release(e, c)))
      else
        var w2 := ParseWhitespace(Read(c));
        if w2.outcome.Fail? then
          Parsed(Fail([CoordsToString(e) + AnnotationMessage]), Release(e, w2.stream))
        else
          var a := ParseCompoundForm(w2.stream);
          if !a.outcome.Success? then Parsed(Fail([]), Release(e, a.stream))
          else
            Parsed(Success(f.(annotation := Some(a.outcome.value))),
                   Consume(Release(e, Consume(a.stream))))
  }

  /** `parseForm`: `(`, then elements separated by optional whitespace,
      then `)`. */
  function ParseForm(s: ParserStream): (r: Parsed<Form>)
    requires s.Wf()
    ensures Advances(s, r.stream)
    ensures r.outcome.Next? <==> Peek(s) != '('
    ensures r.outcome.Next? ==> r.stream == s
    ensures r.outcome.Success? ==> r.stream.index > s.index && !IsFinished(s)
    ensures r.outcome.Success? ==> r.outcome.value.Compound? && r.outcome.value.annotation.None?
    decreases Remaining(s), 1
  {
    if Peek(s) != '(' then Parsed(Next, s)
    else
      var r := FormItems(Read(s), []);
      if r.outcome.Success? then Parsed(Success(Compound(r.outcome.value, None)), Consume(r.stream))
      else Parsed(Fail(ErrorsOf(r.outcome)), r.stream)
  }

  /** The loop of `parseForm`: `acc` holds the children read so far. */
  function FormItems(s: ParserStream, acc: seq<Form>): (r: Parsed<seq<Form>>)
    requires s.Wf()
    ensures Advances(s, r.stream)
    ensures !r.outcome.Next?
    decreases Remaining(s), 4
  {
    var w := ParseWhitespace(s);
    var t := w.stream;
    if IsFinished(t) then Parsed(Fail([CoordsToString(t) + UnmatchedMessage]), t)
    else if Peek(t) == ')' then Parsed(Success(acc), Read(t))
    else
      var e := ParseCompoundForm(t);
      if !e.outcome.Success? then Parsed(Fail(ErrorsOf(e.outcome)), e.stream)
      else FormItems(e.stream, acc + [e.outcome.value])
  }

  // ---------------------------------------------------------------- top level

  /** The loop of `parse`: whitespace, then an element, until the
      whitespace reaches the end of input. */
  function TopLevel(s: ParserStream, acc: seq<Form>): (r: Parsed<seq<Form>>)
    requires s.Wf()
    ensures Advances(s, r.stream)
    ensures !r.outcome.Next?
    ensures r.outcome.Success? ==> IsFinished(r.stream)
    decreases Remaining(s)
  {
    var w := ParseWhitespace(s);
    if w.outcome.Fail? then Parsed(Success(acc), w.stream)
    else
      var e := ParseCompoundForm(w.stream);
      if !e.outcome.Success? then Parsed(Fail(ErrorsOf(e.outcome)), e.stream)
      else TopLevel(e.stream, acc + [e.outcome.value])
  }

  /** `parse`: the whole input as one compound of its top-level elements.
      It always answers, and a success has read to the end of the input. */
  function Parse(source: ParserStream): (r: Parsed<Form>)
    requires source.Wf()
    ensures !r.outcome.Next?
    ensures r.outcome.Success? ==> r.outcome.value.Compound? && r.outcome.value.annotation.None?
    ensures r.outcome.Success? ==> IsFinished(r.stream)
  {
    var r := TopLevel(source, []);
    if r.outcome.Success? then Parsed(Success(Compound(r.outcome.value, None)), Consume(r.stream))
    else Parsed(Fail(ErrorsOf(r.outcome)), r.stream)
  }

  /** `parse(ParserStream(text))`: a success is the unannotated root
      compound. */
  function ParseText(text: string): (r: Outcome<Form>)
    ensures !r.Next?
    ensures r.Success? ==> r.value.Compound? && r.value.annotation.None?
  {
    Parse(NewStream(text)).outcome
  }
}
