/** Properties of the reader beyond the round trip: the shape of its
    diagnostics, the order of the forms it collects, what whole inputs of
    whitespace or stray characters give, where the "Unmatched parentheses"
    diagnostic is reported, and the three ways the type-annotation
    lookahead can end. */
module ReaderProps {
  import opened Chars
  import opened Optional
  import opened Streams
  import opened Forms
  import opened Reader
  import opened RoundTrip

  // ---------------------------------------------------------------- diagnostics

  /** A diagnostic of the reader: the start coordinates of some stream
      followed by one of the three messages. */
  ghost predicate IsDiagnostic(m: string) {
    exists t: ParserStream ::
      || m == CoordsToString(t) + OverflowMessage
      || m == CoordsToString(t) + UnmatchedMessage
      || m == CoordsToString(t) + AnnotationMessage
  }

  /** What a failure carries: no diagnostic, or exactly one. */
  ghost predicate Diagnostics(es: seq<string>) {
    |es| <= 1 && forall m :: m in es ==> IsDiagnostic(m)
  }

  /** The digit loop fails only with the overflow diagnostic. */
  lemma {:induction false} DecimalLoopDiagnostics(s: ParserStream, value: u64)
    ensures Diagnostics(ErrorsOf(DecimalLoop(s, value).outcome))
    decreases Remaining(s)
  {
    var c := Peek(s);
    if IsDigit(c) {
      var next := 10 * value + DigitValue(c);
      if next >= U64_LIMIT {
        assert IsDiagnostic(CoordsToString(s) + OverflowMessage);
      } else {
        DecimalLoopDiagnostics(Read(s), next);
      }
    }
  }

  lemma IntDiagnostics(s: ParserStream)
    ensures Diagnostics(ErrorsOf(ParseInt(s).outcome))
  {
    if IsDigit(Peek(s)) {
      DecimalLoopDiagnostics(Read(s), DigitValue(Peek(s)));
    }
  }

  /** The annotation lookahead reports only its own diagnostic: whatever
      the annotation element reported is dropped. */
  lemma AnnotateDiagnostics(f: Form, e: ParserStream)
    requires e.Wf()
    ensures Diagnostics(ErrorsOf(Annotate(f, e).outcome))
  {
    var w := ParseWhitespace(Copy(e));
    if !w.outcome.Fail? && Peek(w.stream) == ':' {
      var c := Read(w.stream);
      if Peek(c) == ':' && ParseWhitespace(Read(c)).outcome.Fail? {
        assert IsDiagnostic(CoordsToString(e) + AnnotationMessage);
      }
    }
  }

  lemma {:induction false} CompoundDiagnostics(s: ParserStream)
    requires s.Wf()
    ensures Diagnostics(ErrorsOf(ParseCompoundForm(s).outcome))
    decreases Remaining(s), 3
  {
    var e := ParseElement(s);
    ElementDiagnostics(s);
    if e.outcome.Success? {
      AnnotateDiagnostics(e.outcome.value, e.stream);
    }
  }

  lemma {:induction false} ElementDiagnostics(s: ParserStream)
    requires s.Wf()
    ensures Diagnostics(ErrorsOf(ParseElement(s).outcome))
    decreases Remaining(s), 2
  {
    var a := ParseInt(s);
    IntDiagnostics(s);
    if a.outcome.Next? {
      var b := ParseIdentifier(a.stream);
      if b.outcome.Next? {
        FormDiagnostics(b.stream);
      }
    }
  }

  lemma {:induction false} FormDiagnostics(s: ParserStream)
    requires s.Wf()
    ensures Diagnostics(ErrorsOf(ParseForm(s).outcome))
    decreases Remaining(s), 1
  {
    if Peek(s) == '(' {
      ItemsDiagnostics(Read(s), []);
    }
  }

  lemma {:induction false} ItemsDiagnostics(s: ParserStream, acc: seq<Form>)
    requires s.Wf()
    ensures Diagnostics(ErrorsOf(FormItems(s, acc).outcome))
    decreases Remaining(s), 4
  {
    var t := ParseWhitespace(s).stream;
    if IsFinished(t) {
      assert IsDiagnostic(CoordsToString(t) + UnmatchedMessage);
    } else if Peek(t) != ')' {
      var e := ParseCompoundForm(t);
      CompoundDiagnostics(t);
      if e.outcome.Success? {
        ItemsDiagnostics(e.stream, acc + [e.outcome.value]);
      }
    }
  }

  lemma {:induction false} TopDiagnostics(s: ParserStream, acc: seq<Form>)
    requires s.Wf()
    ensures Diagnostics(ErrorsOf(TopLevel(s, acc).outcome))
    decreases Remaining(s)
  {
    var w := ParseWhitespace(s);
    if w.outcome.Success? {
      var e := ParseCompoundForm(w.stream);
      CompoundDiagnostics(w.stream);
      if e.outcome.Success? {
        TopDiagnostics(e.stream, acc + [e.outcome.value]);
      }
    }
  }

  /** A failed parse carries at most one diagnostic, and it is the start
      coordinates of some stream followed by "Integer larger than 64
      bits.", "Unmatched parentheses." or "Expected type annotation.". */
  lemma ParseDiagnostics(text: string)
    ensures ParseText(text).Fail? ==> Diagnostics(ParseText(text).errors)
  {
    TopDiagnostics(NewStream(text), []);
  }

  // ---------------------------------------------------------------- order

  /** Prefixes `acc` to a successful list of forms. */
  function Prepend(acc: seq<Form>, o: Outcome<seq<Form>>): Outcome<seq<Form>> {
    match o
    case Success(v) => Success(acc + v)
    case Next => Next
    case Fail(es) => Fail(es)
  }

  /** The children already read only ever stand in front: the form loop
      started with `acc` reads what it reads from nothing, with `acc`
      prefixed on success, so children keep their source order. */
  lemma {:induction false} ItemsAccumulate(s: ParserStream, acc: seq<Form>)
    requires s.Wf()
    ensures FormItems(s, acc).outcome == Prepend(acc, FormItems(s, []).outcome)
    ensures FormItems(s, acc).stream == FormItems(s, []).stream
    decreases Remaining(s)
  {
    var t := ParseWhitespace(s).stream;
    if !IsFinished(t) && Peek(t) == ')' {
      assert acc + [] == acc;
    } else if !IsFinished(t) {
      var e := ParseCompoundForm(t);
      if e.outcome.Success? {
        var v := e.outcome.value;
        assert [] + [v] == [v];
        ItemsAccumulate(e.stream, acc + [v]);
        ItemsAccumulate(e.stream, [v]);
        var rest := FormItems(e.stream, []).outcome;
        if rest.Success? {
          assert acc + ([v] + rest.value) == acc + [v] + rest.value;
        }
      }
    }
  }

  /** The same for the top-level loop: top-level forms keep their source
      order. */
  lemma {:induction false} TopAccumulate(s: ParserStream, acc: seq<Form>)
    requires s.Wf()
    ensures TopLevel(s, acc).outcome == Prepend(acc, TopLevel(s, []).outcome)
    ensures TopLevel(s, acc).stream == TopLevel(s, []).stream
    decreases Remaining(s)
  {
    var w := ParseWhitespace(s);
    if w.outcome.Fail? {
      assert acc + [] == acc;
    } else {
      var e := ParseCompoundForm(w.stream);
      if e.outcome.Success? {
        var v := e.outcome.value;
        assert [] + [v] == [v];
        TopAccumulate(e.stream, acc + [v]);
        TopAccumulate(e.stream, [v]);
        var rest := TopLevel(e.stream, []).outcome;
        if rest.Success? {
          assert acc + ([v] + rest.value) == acc + [v] + rest.value;
        }
      }
    }
  }

  // ---------------------------------------------------------------- whole inputs

  /** The input reads as the empty root compound exactly when it is empty
      or whitespace only. */
  lemma BlankInputReadsEmpty(text: string)
    ensures ParseText(text) == Success(Compound([], None))
        <==> forall i :: 0 <= i < |text| ==> IsSpace(text[i])
  {
    var s := NewStream(text);
    var w := ParseWhitespace(s);
    var j := RunEnd(text, 0, IsSpace);
    RunSatisfies(text, 0, IsSpace);
    if forall i :: 0 <= i < |text| ==> IsSpace(text[i]) {
      assert !(j < |text|);
      assert w.outcome.Fail?;
    } else {
      assert j < |text|;
      var e := ParseCompoundForm(w.stream);
      if e.outcome.Success? {
        var v := e.outcome.value;
        TopAccumulate(e.stream, [v]);
        assert [] + [v] == [v];
      }
    }
  }

  /** At a character no alternative accepts — a `)` or a non-printable
      character — every alternative answers `Next` without reading. */
  lemma NothingApplies(t: ParserStream)
    requires t.Wf() && !IsFinished(t)
    requires Peek(t) == ')' || !IsPrint(Peek(t))
    ensures ParseCompoundForm(t) == Parsed(Next, t)
  {
    assert !IsDigit(Peek(t));
    assert ParseElement(t) == Parsed(Next, t);
  }

  /** A stray `)` or a non-printable character where a top-level form
      should start makes the parse fail with no diagnostic at all. */
  lemma TopLevelRejects(s: ParserStream, acc: seq<Form>)
    requires s.Wf()
    requires var k := RunEnd(s.text, s.index, IsSpace);
      k < |s.text| && (s.text[k] == ')' || !IsPrint(s.text[k]))
    ensures var k := RunEnd(s.text, s.index, IsSpace);
      TopLevel(s, acc) == Parsed(Fail([]), Consume(ReadN(s, k - s.index)))
  {
    var t := ParseWhitespace(s).stream;
    NothingApplies(t);
  }

  /** Inside a form, a non-printable character where a child should start
      fails the same way. */
  lemma ItemsRejectUnprintable(s: ParserStream, acc: seq<Form>)
    requires s.Wf()
    requires var k := RunEnd(s.text, s.index, IsSpace);
      k < |s.text| && !IsPrint(s.text[k])
    ensures var k := RunEnd(s.text, s.index, IsSpace);
      FormItems(s, acc) == Parsed(Fail([]), Consume(ReadN(s, k - s.index)))
  {
    var t := ParseWhitespace(s).stream;
    NothingApplies(t);
  }

  /** The end of input before `)`: the form fails with "Unmatched
      parentheses." at the start coordinates of the stream after the
      final whitespace, which are where the line and column of this
      stream stand after passing over the rest of the text — not at the
      opening parenthesis. */
  lemma UnmatchedAtEnd(s: ParserStream, acc: seq<Form>)
    requires s.Wf() && s.index <= |s.text|
    requires RunEnd(s.text, s.index, IsSpace) == |s.text|
    ensures var t := Consume(ReadN(s, |s.text| - s.index));
      && FormItems(s, acc) == Parsed(Fail([CoordsToString(t) + UnmatchedMessage]), t)
      && t.startLine == LineAfter(s.line, s.text[s.index..])
      && t.startColumn == ColumnAfter(s.column, s.text[s.index..])
  {
    ReadsTrackCoords(s, |s.text| - s.index);
    assert s.text[s.index..s.index + (|s.text| - s.index)] == s.text[s.index..];
  }

  // ---------------------------------------------------------------- annotations

  /** No `::` after the whitespace following an element — nothing, one
      colon, or anything else: the element stands without annotation.
      The enclosing stream's index moves over that whitespace (the copy
      committed it) and no further, while its line and column stay where
      the element left them. */
  lemma AnnotationAbsent(f: Form, e: ParserStream)
    requires e.Wf() && NoAnnotationAt(e.text, e.index)
    ensures var k := RunEnd(e.text, e.index, IsSpace);
      Annotate(f, e) == Parsed(Success(f), Consume(e.(index := k)))
  {
    var k := RunEnd(e.text, e.index, IsSpace);
    var w := ParseWhitespace(Copy(e));
    assert ParentIndex(w.stream) == k;
    if !w.outcome.Fail? && Peek(w.stream) == ':' {
      var c := Read(w.stream);
      assert k < |e.text| && e.text[k] == ':';
      assert Peek(c) != ':';
      assert ParentIndex(c) == k;
    }
  }

  /** `::` after the whitespace following an element, and nothing but
      whitespace after it: "Expected type annotation." at the start
      coordinates of the enclosing stream, which the element's consume
      moved to the line and column just after the element (in `ab::`,
      1:3). */
  lemma AnnotationAtEnd(f: Form, e: ParserStream)
    requires e.Wf()
    requires var k := RunEnd(e.text, e.index, IsSpace);
      && k + 1 < |e.text| && e.text[k] == ':' && e.text[k + 1] == ':'
      && RunEnd(e.text, k + 2, IsSpace) == |e.text|
    ensures Annotate(f, e) == Parsed(Fail([CoordsToString(e) + AnnotationMessage]), e.(index := |e.text|))
  {
    var w := ParseWhitespace(Copy(e));
    var c := Read(w.stream);
    assert Peek(c) == ':';
    var w2 := ParseWhitespace(Read(c));
    assert w2.outcome.Fail? && ParentIndex(w2.stream) == |e.text|;
  }

  /** Where the annotation element starts: on the copy, after the
      whitespace, the `::` and the whitespace after it. */
  lemma AnnotationStart(e: ParserStream, k: nat, j: nat)
    requires e.Wf() && k == RunEnd(e.text, e.index, IsSpace)
    requires k + 1 < |e.text| && e.text[k] == ':' && e.text[k + 1] == ':'
    requires j == RunEnd(e.text, k + 2, IsSpace)
    ensures var w := ParseWhitespace(Copy(e));
      && w.outcome.Success? && Peek(w.stream) == ':' && Peek(Read(w.stream)) == ':'
      && ParseWhitespace(Read(Read(w.stream))).stream == Consume(ReadN(Copy(e), j - e.index))
  {
    var c0 := Copy(e);
    var w := ParseWhitespace(c0);
    assert w.stream == Consume(ReadN(c0, k - e.index));
    var c2 := Read(Read(w.stream));
    assert c2.index == k + 2 && c2.text == e.text;
    ReadsThenSkip(c0, k - e.index, j - (k + 2));
  }

  /** `::` after the whitespace following an element and more text after
      it: the element read there, after optional whitespace, becomes the
      annotation, and the enclosing stream's index moves to where that
      element ended; when that element does not succeed the lookahead
      fails with no diagnostic, dropping whatever the element reported. */
  lemma AnnotationFollows(f: Form, e: ParserStream)
    requires e.Wf()
    requires var k := RunEnd(e.text, e.index, IsSpace);
      && k + 1 < |e.text| && e.text[k] == ':' && e.text[k + 1] == ':'
      && RunEnd(e.text, k + 2, IsSpace) < |e.text|
    ensures var j := RunEnd(e.text, RunEnd(e.text, e.index, IsSpace) + 2, IsSpace);
      var a := ParseCompoundForm(Consume(ReadN(Copy(e), j - e.index)));
      var r := Annotate(f, e);
      && (a.outcome.Success? ==>
            r == Parsed(Success(f.(annotation := Some(a.outcome.value))), Consume(e.(index := a.stream.index))))
      && (!a.outcome.Success? ==>
            r == Parsed(Fail([]), e.(index := ParentIndex(a.stream))))
  {
    var k := RunEnd(e.text, e.index, IsSpace);
    var j := RunEnd(e.text, k + 2, IsSpace);
    AnnotationStart(e, k, j);
    AnnotateColons(f, e);
  }

  /** The lookahead past `::` and more whitespace, before more text: the
      element read there decides the answer. */
  lemma AnnotateColons(f: Form, e: ParserStream)
    requires e.Wf()
    requires var w := ParseWhitespace(Copy(e));
      && w.outcome.Success? && Peek(w.stream) == ':' && Peek(Read(w.stream)) == ':'
      && ParseWhitespace(Read(Read(w.stream))).outcome.Success?
    ensures var w2 := ParseWhitespace(Read(Read(ParseWhitespace(Copy(e)).stream)));
      var a := ParseCompoundForm(w2.stream);
      && (a.outcome.Success? ==>
            Annotate(f, e) == Parsed(Success(f.(annotation := Some(a.outcome.value))), Consume(e.(index := a.stream.index))))
      && (!a.outcome.Success? ==>
            Annotate(f, e) == Parsed(Fail([]), e.(index := ParentIndex(a.stream))))
  {
    var w2 := ParseWhitespace(Read(Read(ParseWhitespace(Copy(e)).stream)));
    var a := ParseCompoundForm(w2.stream);
    assert a.stream.link.Child?;
    if a.outcome.Success? {
      assert Release(e, Consume(a.stream)) == e.(index := a.stream.index);
    } else {
      assert Release(e, a.stream) == e.(index := ParentIndex(a.stream));
    }
  }

  /** Annotations nest to the right: `a::b::c` is `a` annotated with `b`
      annotated with `c`. */
  lemma AnnotationsNestRight()
    ensures ParseText("a::b::c")
      == Success(Compound([Identifier("a", Some(Identifier("b", Some(Identifier("c", None)))))], None))
  {
    var f := Identifier("a", Some(Identifier("b", Some(Identifier("c", None)))));
    assert ToString(f) == "a::b::c";
    assert Printable(f);
    PrintedFormReadsBack(f);
  }

  // ---------------------------------------------------------------- examples

  /** Single-digit start coordinates print as two digits around a colon. */
  lemma CoordsAt(t: ParserStream, line: nat, column: nat, c: string)
    requires t.startLine == line < 9 && t.startColumn == column < 9
    requires c == [DigitChar(line + 1), ':', DigitChar(column + 1)]
    ensures CoordsToString(t) == c
  {
  }

  /** An open parenthesis alone: unmatched, reported just after it, where
      the whitespace skip that found the end of input left its start
      coordinates. */
  lemma OpenParenthesisAlone()
    ensures ParseText("(") == Fail(["1:2" + UnmatchedMessage])
  {
    var s := NewStream("(");
    assert RunEnd("(", 0, IsSpace) == 0;
    var t0 := Consume(s);
    assert ParseWhitespace(s) == Parsed(Success(()), t0);
    var s1 := Read(t0);
    assert RunEnd("(", 1, IsSpace) == 1;
    UnmatchedAtEnd(s1, []);
    var t := Consume(ReadN(s1, 0));
    CoordsAt(t, 0, 1, "1:2");
    assert ParseForm(t0).outcome == Fail(["1:2" + UnmatchedMessage]);
    assert ParseElement(t0).outcome == Fail(["1:2" + UnmatchedMessage]);
  }

  /** The second element of `a  b::`, read where the first one's
      lookahead left the stream: index 3, but line and column still those
      of index 1, just after `a`. */
  lemma LagColumnSecond(u1: ParserStream)
    requires u1 == ParserStream("a  b::", 3, 0, 1, 0, 1, Root)
    ensures ParseCompoundForm(u1).outcome == Fail(["1:3" + AnnotationMessage])
  {
    var text := "a  b::";
    assert At(text, 3, "b");
    NameReadsBack("b", u1);
    var e2 := Consume(ReadN(u1, 1));
    assert e2.index == 4 && e2.startLine == 0 && e2.startColumn == 2;
    assert RunEnd(text, 4, IsSpace) == 4;
    assert RunEnd(text, 6, IsSpace) == 6;
    AnnotationAtEnd(Identifier("b", None), e2);
    CoordsAt(e2, 0, 2, "1:3");
  }

  /** In `a  b::` the missing annotation of `b` is reported at column 3,
      although `b` ends at column 5: the lookahead after `a` moved the
      index over the two spaces but not the column, so the column just
      after `b` comes out two short. */
  lemma LagColumn()
    ensures ParseText("a  b::") == Fail(["1:3" + AnnotationMessage])
  {
    var text := "a  b::";
    var s := NewStream(text);
    assert RunEnd(text, 0, IsSpace) == 0;
    var t0 := Consume(s);
    assert ParseWhitespace(s) == Parsed(Success(()), t0);
    assert At(text, 0, "a");
    NameReadsBack("a", t0);
    var e1 := Consume(ReadN(t0, 1));
    assert e1.index == 1 && e1.line == 0 && e1.column == 1;
    assert RunEnd(text, 3, IsSpace) == 3;
    assert RunEnd(text, 1, IsSpace) == 3;
    AnnotationAbsent(Identifier("a", None), e1);
    var u := Consume(e1.(index := 3));
    assert ParseCompoundForm(t0) == Parsed(Success(Identifier("a", None)), u);
    var u1 := Consume(u);
    assert ParseWhitespace(u) == Parsed(Success(()), u1);
    LagColumnSecond(u1);
  }

  /** An unmatched parenthesis is not always reported as one: in `(a::`
      the input ends inside the annotation of `a`, and the parse fails
      with "Expected type annotation." just after `a`. */
  lemma UnmatchedInsideAnnotation()
    ensures ParseText("(a::") == Fail(["1:3" + AnnotationMessage])
  {
    var text := "(a::";
    var s := NewStream(text);
    assert RunEnd(text, 0, IsSpace) == 0;
    var t0 := Consume(s);
    assert ParseWhitespace(s) == Parsed(Success(()), t0);
    var s1 := Read(t0);
    assert RunEnd(text, 1, IsSpace) == 1;
    var t1 := Consume(s1);
    assert ParseWhitespace(s1) == Parsed(Success(()), t1);
    var errors := ["1:3" + AnnotationMessage];
    assert ParseCompoundForm(t1).outcome == Fail(errors) by {
      UnmatchedInsideAnnotationChild(t1);
    }
    assert FormItems(s1, []).outcome == Fail(errors);
    assert ParseForm(t0).outcome == Fail(errors);
    assert Peek(t0) == '(' && !IsDigit('(') && !NameStart('(');
    assert ParseInt(t0) == Parsed(Next, t0);
    assert ParseIdentifier(t0) == Parsed(Next, t0);
    assert ParseElement(t0).outcome == Fail(errors);
  }

  /** The child `a` of `(a::`, read just after the parenthesis. */
  lemma UnmatchedInsideAnnotationChild(t1: ParserStream)
    requires t1 == ParserStream("(a::", 1, 0, 1, 0, 1, Root)
    ensures ParseCompoundForm(t1).outcome == Fail(["1:3" + AnnotationMessage])
  {
    var text := "(a::";
    assert At(text, 1, "a");
    NameReadsBack("a", t1);
    var e := Consume(ReadN(t1, 1));
    assert e.index == 2 && e.startLine == 0 && e.startColumn == 2;
    assert RunEnd(text, 2, IsSpace) == 2;
    assert RunEnd(text, 4, IsSpace) == 4;
    assert ParseInt(t1) == Parsed(Next, t1);
    assert ParseElement(t1) == Parsed(Success(Identifier("a", None)), e);
    AnnotationAtEnd(Identifier("a", None), e);
    CoordsAt(e, 0, 2, "1:3");
  }
}
