/** The printer and the reader are inverse: a printable form, printed and
    read back, is the form again (src/parser.hpp `Form::toString` against
    src/parser.cpp `parse`).

    The proof follows the reader. `ElementReadsBack` reads one printed
    form wherever it stands in the text, provided what follows it ends the
    element and does not open an annotation; `ItemsReadBack` reads the
    children of a printed compound and `TopReadsBack` the top-level forms
    of a printed sequence. */
module RoundTrip {
  import opened Chars
  import opened Optional
  import opened Streams
  import opened Forms
  import opened Reader

  // ---------------------------------------------------------------- text facts

  /** A run of characters satisfying `p` that stops at position `j` ends
      there. */
  lemma {:induction false} RunEndAt(text: string, i: nat, j: nat, p: char -> bool)
    requires i <= j <= |text|
    requires forall k :: i <= k < j ==> p(text[k])
    requires j == |text| || !p(text[j])
    ensures RunEnd(text, i, p) == j
    decreases j - i
  {
    if i < j {
      RunEndAt(text, i + 1, j, p);
    }
  }

  /** The text from `i` on begins with `w`. */
  predicate At(text: string, i: nat, w: string) {
    i + |w| <= |text| && text[i..i + |w|] == w
  }

  /** A text beginning with `a + b` begins with `a`, and then with `b`. */
  lemma AtSplit(text: string, i: nat, a: string, b: string)
    requires At(text, i, a + b)
    ensures At(text, i, a) && At(text, i + |a|, b)
  {
    assert text[i..i + |a|] == (a + b)[..|a|];
    assert text[i + |a|..i + |a| + |b|] == (a + b)[|a|..];
  }

  lemma Assoc(a: string, b: string, c: string)
    ensures (a + b) + c == a + (b + c)
  {
  }

  /** The character at the position where `w` begins. */
  lemma AtChar(text: string, i: nat, w: string, k: nat)
    requires At(text, i, w) && k < |w|
    ensures i + k < |text| && text[i + k] == w[k]
  {
    assert text[i..i + |w|][k] == w[k];
  }

  /** What may follow a printed element: the end of input, whitespace or a
      closing parenthesis. */
  predicate Boundary(text: string, j: nat) {
    j == |text| || (j < |text| && (IsSpace(text[j]) || text[j] == ')'))
  }

  /** After the whitespace at `j`, the text does not go on with `::`, so
      the annotation lookahead finds no annotation there. */
  predicate NoAnnotationAt(text: string, j: nat) {
    var k := RunEnd(text, j, IsSpace);
    !(k + 1 < |text| && text[k] == ':' && text[k + 1] == ':')
  }

  // ---------------------------------------------------------------- printed text

  /** The printed text of a printable form is not empty, begins with
      neither whitespace nor `)`, begins with a digit exactly when the form
      is an integer and with `(` exactly when it is a compound, and begins
      with `::` only when the form is the one-colon identifier with an
      annotation. */
  lemma FirstChar(f: Form)
    requires Printable(f)
    ensures var t := ToString(f);
      && |t| >= 1 && !IsSpace(t[0]) && t[0] != ')'
      && (IsDigit(t[0]) <==> f.Integer?)
      && (t[0] == '(' <==> f.Compound?)
      && (f.Identifier? ==> t[0] == f.name[0])
      && (|t| >= 2 && t[0] == ':' && t[1] == ':' ==> OpensWithDoubleColon(f))
  {
    var body := Body(f);
    assert |body| >= 1;
    assert ToString(f)[..|body|] == body;
    assert ToString(f)[0] == body[0];
    if f.Identifier? && |body| >= 2 {
      assert ToString(f)[1] == body[1];
    }
  }

  /** A form preceded by one space, and the rest spaced likewise, is a
      space before the forms joined. */
  lemma SpacedJoin(cs: seq<Form>)
    requires |cs| >= 1
    ensures Spaced(cs) == " " + Join(cs)
  {
    var a := ToString(cs[0]);
    var b := Spaced(cs[1..]);
    assert " " + a + b == " " + (a + b);
  }

  /** The printed text of a sequence followed by `)` begins with a space
      or is the `)` itself. */
  lemma SpacedFirst(cs: seq<Form>)
    ensures var w := Spaced(cs) + ")"; w[0] == ' ' || w[0] == ')'
  {
  }

  /** A printable form that does not open with `::`, followed by a space
      or a `)`, does not put `::` at its start. */
  lemma NoDoubleColon(f: Form, text: string, i: nat, more: string)
    requires Printable(f) && !OpensWithDoubleColon(f)
    requires |more| >= 1 && (more[0] == ' ' || more[0] == ')')
    requires At(text, i, ToString(f) + more)
    ensures !(i + 1 < |text| && text[i] == ':' && text[i + 1] == ':')
  {
    var t := ToString(f);
    FirstChar(f);
    AtChar(text, i, t + more, 0);
    AtChar(text, i, t + more, 1);
    assert (t + more)[0] == t[0];
    if |t| >= 2 {
      assert (t + more)[1] == t[1];
    } else {
      assert (t + more)[1] == more[0];
    }
  }

  // ---------------------------------------------------------------- reading back

  /** A numeral in the text, followed by a stop character or the end of
      input, is the run of digits there. */
  lemma DigitsAt(t: string, text: string, i: nat)
    requires AllDigits(t) && At(text, i, t)
    requires i + |t| == |text| || NameStop(text[i + |t|])
    ensures DigitRun(text, i) == t
  {
    var j := i + |t|;
    forall k | i <= k < j
      ensures IsDigit(text[k])
    {
      AtChar(text, i, t, k - i);
    }
    RunEndAt(text, i, j, IsDigit);
  }

  /** A valid name in the text, followed by a stop character or the end of
      input, starts where the identifier rule may start and its name
      characters run up to its end. */
  lemma NameAt(name: string, text: string, i: nat)
    requires ValidName(name) && At(text, i, name)
    requires i + |name| == |text| || NameStop(text[i + |name|])
    ensures i < |text| && text[i] == name[0] && NameStart(name[0])
    ensures RunEnd(text, i + 1, NameChar) == i + |name|
    ensures text[i..i + |name|] == name
  {
    var j := i + |name|;
    AtChar(text, i, name, 0);
    forall k | i + 1 <= k < j
      ensures NameChar(text[k])
    {
      AtChar(text, i, name, k - i);
    }
    RunEndAt(text, i + 1, j, NameChar);
  }

  /** The body of a printed integer reads back as the integer, up to a
      character that is not a digit. */
  lemma IntegerReadsBack(n: u64, s: ParserStream)
    requires s.Wf()
    requires At(s.text, s.index, NatToDecimal(n))
    requires var j := s.index + |NatToDecimal(n)|; j == |s.text| || NameStop(s.text[j])
    ensures var r := ParseElement(s);
      r.outcome == Success(Integer(n, None)) && r.stream.index == s.index + |NatToDecimal(n)|
  {
    var t := NatToDecimal(n);
    DigitsAt(t, s.text, s.index);
    IntReadsRun(s);
    assert ParseInt(s) == Parsed(Success(Integer(n, None)), Consume(ReadN(s, |t|)));
    assert ParseElement(s) == ParseInt(s);
  }

  /** The identifier rule reads a valid name followed by a stop character
      or the end of input. */
  lemma NameReadsBack(name: string, s: ParserStream)
    requires ValidName(name) && At(s.text, s.index, name)
    requires var j := s.index + |name|; j == |s.text| || NameStop(s.text[j])
    ensures ParseIdentifier(s) == Parsed(Success(Identifier(name, None)), Consume(ReadN(s, |name|)))
  {
    NameAt(name, s.text, s.index);
    assert Peek(s) == name[0] && !IsFinished(s);
    IdentifierReadsRun(s);
  }

  /** The body of a printed identifier reads back as the identifier, up to
      whitespace, a delimiter or the end of input. */
  lemma IdentifierReadsBack(name: string, s: ParserStream)
    requires s.Wf() && ValidName(name)
    requires At(s.text, s.index, name)
    requires var j := s.index + |name|; j == |s.text| || NameStop(s.text[j])
    ensures var r := ParseElement(s);
      r.outcome == Success(Identifier(name, None)) && r.stream.index == s.index + |name|
  {
    NameReadsBack(name, s);
    AtChar(s.text, s.index, name, 0);
    assert !IsDigit(Peek(s));
    assert ParseElement(s) == ParseIdentifier(s);
  }

  /** The annotation lookahead where the text does not go on with `::`
      after whitespace: the element stands without annotation, and the
      index has moved over the whitespace. */
  lemma AnnotateNone(g: Form, e: ParserStream, text: string, j: nat)
    requires e.Wf() && e.text == text && e.index == j
    requires j <= |text| && NoAnnotationAt(text, j)
    ensures var r := Annotate(g, e);
      r.outcome == Success(g) && r.stream.index == RunEnd(text, j, IsSpace)
  {
    var k := RunEnd(e.text, e.index, IsSpace);
    var w := ParseWhitespace(Copy(e));
    assert w.stream.index == k && ParentIndex(w.stream) == k;
    if !w.outcome.Fail? && Peek(w.stream) == ':' {
      var c := Read(w.stream);
      assert k < |e.text| && e.text[k] == ':';
      assert Peek(c) != ':';
      assert ParentIndex(c) == k;
    }
  }

  /** A printed form reads back as itself wherever it stands, when the
      text after it ends the element and does not open an annotation; the
      index ends after the whitespace that follows. */
  lemma {:induction false} ElementReadsBack(f: Form, s: ParserStream, text: string, j: nat)
    requires s.Wf() && s.text == text && Printable(f) && At(text, s.index, ToString(f))
    requires j == s.index + |ToString(f)| && Boundary(text, j) && NoAnnotationAt(text, j)
    ensures var r := ParseCompoundForm(s);
      r.outcome == Success(f) && r.stream.index == RunEnd(text, j, IsSpace)
    decreases f, 3
  {
    if f.annotation.None? {
      BareElementReadsBack(f, s, text, j);
    } else {
      AnnotatedElementReadsBack(f, s, text, j);
    }
  }

  /** A printed form without annotation: its body, then a lookahead that
      finds no `::`. */
  lemma {:induction false} BareElementReadsBack(f: Form, s: ParserStream, text: string, j: nat)
    requires s.Wf() && s.text == text && Printable(f) && At(text, s.index, ToString(f))
    requires j == s.index + |ToString(f)| && Boundary(text, j) && NoAnnotationAt(text, j)
    requires f.annotation.None?
    ensures var r := ParseCompoundForm(s);
      r.outcome == Success(f) && r.stream.index == RunEnd(text, j, IsSpace)
    decreases f, 2
  {
    assert ToString(f) == Body(f);
    BodyReadsBack(f, s);
    var e := ParseElement(s);
    assert Bare(f) == f;
    assert ParseCompoundForm(s) == Annotate(f, e.stream);
    AnnotateNone(f, e.stream, text, j);
  }

  /** A printed form with an annotation: its body, then `::` and the
      printed annotation. */
  lemma {:induction false} AnnotatedElementReadsBack(f: Form, s: ParserStream, text: string, j: nat)
    requires s.Wf() && s.text == text && Printable(f) && At(text, s.index, ToString(f))
    requires j == s.index + |ToString(f)| && Boundary(text, j) && NoAnnotationAt(text, j)
    requires f.annotation.Some?
    ensures var r := ParseCompoundForm(s);
      r.outcome == Success(f) && r.stream.index == RunEnd(text, j, IsSpace)
    decreases f, 2
  {
    var a := f.annotation.value;
    var jb := AnnotatedAt(f, text, s.index);
    BodyReadsBack(f, s);
    var g := Bare(f);
    var e := ParseElement(s);
    assert ParseCompoundForm(s) == Annotate(g, e.stream);
    assert e.stream.Wf() && e.stream.text == text && e.stream.index == jb;
    AnnotateSome(g, a, e.stream, text, j);
    assert g.(annotation := Some(a)) == f;
  }

  /** A printed annotated form in the text: its body, ending before `:`,
      then `::` and the printed annotation. */
  lemma AnnotatedAt(f: Form, text: string, i: nat) returns (jb: nat)
    requires Printable(f) && f.annotation.Some? && At(text, i, ToString(f))
    ensures jb == i + |Body(f)| && At(text, i, Body(f))
    ensures jb < |text| && text[jb] == ':'
    ensures At(text, jb, "::" + ToString(f.annotation.value))
    ensures Printable(f.annotation.value)
    ensures i + |ToString(f)| == jb + 2 + |ToString(f.annotation.value)|
  {
    jb := i + |Body(f)|;
    var rest := "::" + ToString(f.annotation.value);
    assert ToString(f) == Body(f) + rest;
    AtSplit(text, i, Body(f), rest);
    AtChar(text, jb, rest, 0);
  }

  /** The annotation lookahead right at `::` followed by a character
      that is not whitespace: the element that follows is the annotation. */
  lemma AnnotateAtDoubleColon(g: Form, e: ParserStream)
    requires e.Wf() && e.index + 2 < |e.text|
    requires e.text[e.index] == ':' && e.text[e.index + 1] == ':' && !IsSpace(e.text[e.index + 2])
    ensures var t := Consume(Read(Read(Copy(e))));
      var a := ParseCompoundForm(t);
      && t.Wf() && t.text == e.text && t.index == e.index + 2
      && Annotate(g, e)
         == if a.outcome.Success?
            then Parsed(Success(g.(annotation := Some(a.outcome.value))), Consume(Release(e, Consume(a.stream))))
            else Parsed(Fail([]), Release(e, a.stream))
  {
    RunEndAt(e.text, e.index, e.index, IsSpace);
    var w := ParseWhitespace(Copy(e));
    assert w.stream == Copy(e) && w.outcome.Success?;
    var c := Read(w.stream);
    assert Peek(w.stream) == ':' && Peek(c) == ':';
    RunEndAt(e.text, e.index + 2, e.index + 2, IsSpace);
    var w2 := ParseWhitespace(Read(c));
    assert w2.stream == Consume(Read(c)) && w2.outcome.Success?;
  }

  /** The annotation lookahead over `::` and a printed annotation: the
      element takes that annotation. */
  lemma {:induction false} AnnotateSome(g: Form, a: Form, e: ParserStream, text: string, j: nat)
    requires e.Wf() && e.text == text && Printable(a) && At(text, e.index, "::" + ToString(a))
    requires j == e.index + 2 + |ToString(a)| && Boundary(text, j) && NoAnnotationAt(text, j)
    ensures var r := Annotate(g, e);
      r.outcome == Success(g.(annotation := Some(a))) && r.stream.index == RunEnd(text, j, IsSpace)
    decreases a, 4
  {
    assert At(text, e.index + 2, ToString(a)) && e.index + 2 < |text|
      && text[e.index] == ':' && text[e.index + 1] == ':' && !IsSpace(text[e.index + 2]) by {
      AtSplit(text, e.index, "::", ToString(a));
      AtChar(text, e.index, "::", 0);
      AtChar(text, e.index, "::", 1);
      StartChar(a, text, e.index + 2);
    }
    AnnotateAtDoubleColon(g, e);
    var t := Consume(Read(Read(Copy(e))));
    ElementReadsBack(a, t, text, j);
  }

  /** The body of a printed form reads back as the form without its
      annotation, up to whitespace, a delimiter or the end of input. */
  lemma {:induction false} BodyReadsBack(f: Form, s: ParserStream)
    requires s.Wf() && Printable(f) && At(s.text, s.index, Body(f))
    requires var j := s.index + |Body(f)|; j == |s.text| || NameStop(s.text[j])
    ensures var r := ParseElement(s);
      r.outcome == Success(Bare(f)) && r.stream.index == s.index + |Body(f)|
    decreases f, 1
  {
    match f
    case Integer(n, _) =>
      IntegerReadsBack(n, s);
    case Identifier(name, _) =>
      IdentifierReadsBack(name, s);
    case Compound(cs, _) =>
      assert PrintableSeq(cs);
      CompoundReadsBack(cs, s);
  }

  /** A parenthesised text and what lies inside it. */
  lemma ParenthesisedAt(inner: string, text: string, i: nat)
    requires At(text, i, "(" + inner + ")")
    ensures i < |text| && text[i] == '('
    ensures At(text, i + 1, inner + ")")
  {
    assert "(" + inner + ")" == "(" + (inner + ")");
    AtSplit(text, i, "(", inner + ")");
    AtChar(text, i, "(", 0);
  }

  /** The body of a printed compound reads back as the compound without
      annotation. */
  lemma {:induction false} CompoundReadsBack(cs: seq<Form>, s: ParserStream)
    requires s.Wf() && PrintableSeq(cs) && At(s.text, s.index, "(" + Join(cs) + ")")
    ensures var r := ParseElement(s);
      r.outcome == Success(Compound(cs, None)) && r.stream.index == s.index + |Join(cs)| + 2
    decreases cs, 1
  {
    ParenthesisedAt(Join(cs), s.text, s.index);
    assert Peek(s) == '(';
    assert ParseElement(s) == ParseForm(s);
    var s' := Read(s);
    ItemsReadBack(cs, s', [], s.text);
    var r := FormItems(s', []);
    assert [] + cs == cs;
    assert ParseForm(s) == Parsed(Success(Compound(cs, None)), Consume(r.stream));
  }

  /** Printed forms followed by `close` begin with the first form's text,
      followed by the others, each after a space, and `close`. */
  lemma JoinHead(cs: seq<Form>, text: string, i: nat, close: string)
    requires |cs| >= 1 && At(text, i, Join(cs) + close)
    ensures At(text, i, ToString(cs[0]))
    ensures At(text, i + |ToString(cs[0])|, Spaced(cs[1..]) + close)
    ensures |Join(cs)| == |ToString(cs[0])| + |Spaced(cs[1..])|
  {
    var t := ToString(cs[0]);
    assert Join(cs) == t + Spaced(cs[1..]);
    Assoc(t, Spaced(cs[1..]), close);
    AtSplit(text, i, t, Spaced(cs[1..]) + close);
  }

  /** Spaced forms followed by `close` begin with a space, followed by the
      forms joined and `close`. */
  lemma SpacedHead(cs: seq<Form>, text: string, j: nat, close: string)
    requires |cs| >= 1 && At(text, j, Spaced(cs) + close)
    ensures j < |text| && text[j] == ' '
    ensures At(text, j + 1, Join(cs) + close)
    ensures |Spaced(cs)| == 1 + |Join(cs)|
  {
    SpacedJoin(cs);
    assert Spaced(cs) + close == " " + (Join(cs) + close);
    AtSplit(text, j, " ", Join(cs) + close);
    AtChar(text, j, " ", 0);
  }

  /** The character where a printed form begins is neither whitespace nor
      `)`. */
  lemma StartChar(f: Form, text: string, i: nat)
    requires Printable(f) && At(text, i, ToString(f))
    ensures |ToString(f)| >= 1 && i < |text| && text[i] == ToString(f)[0]
    ensures !IsSpace(text[i]) && text[i] != ')'
  {
    FirstChar(f);
    AtChar(text, i, ToString(f), 0);
  }

  /** Printed forms after a space, followed by `)` or by the end of
      input, where the first does not open with `::`: the lookahead at the
      space skips it and finds no annotation. */
  lemma NoAnnotationBetween(rest: seq<Form>, text: string, j: nat, close: string)
    requires |rest| >= 1 && Printable(rest[0]) && !OpensWithDoubleColon(rest[0])
    requires j < |text| && text[j] == ' ' && At(text, j + 1, Join(rest) + close)
    requires close == ")" || (close == "" && j + 1 + |Join(rest)| == |text|)
    ensures Boundary(text, j) && NoAnnotationAt(text, j) && RunEnd(text, j, IsSpace) == j + 1
  {
    var g := rest[0];
    var t := ToString(g);
    var more := Spaced(rest[1..]) + close;
    JoinHead(rest, text, j + 1, close);
    StartChar(g, text, j + 1);
    RunEndAt(text, j, j + 1, IsSpace);
    FirstChar(g);
    if |t| >= 2 {
      AtChar(text, j + 1, t, 1);
    } else if |more| >= 1 {
      SpacedFirst(rest[1..]);
      AtChar(text, j + 2, more, 0);
    }
  }

  /** Where the first of several printed forms, followed by `)` or by
      the end of input, stands in the text: it begins with a character
      that is neither whitespace nor `)`, it ends the element and opens no
      annotation, and the rest begin after one space or right at the end. */
  lemma {:induction false} JoinLayout(cs: seq<Form>, text: string, i: nat, close: string)
    returns (j: nat, next: nat)
    requires PrintableSeq(cs) && |cs| >= 1 && At(text, i, Join(cs) + close)
    requires close == ")" || (close == "" && i + |Join(cs)| == |text|)
    ensures Printable(cs[0]) && PrintableSeq(cs[1..])
    ensures j == i + |ToString(cs[0])| && At(text, i, ToString(cs[0]))
    ensures i < |text| && !IsSpace(text[i]) && text[i] != ')'
    ensures Boundary(text, j) && NoAnnotationAt(text, j)
    ensures next == (if |cs| >= 2 then j + 1 else j)
    ensures RunEnd(text, j, IsSpace) == next
    ensures At(text, next, Join(cs[1..]) + close)
    ensures next + |Join(cs[1..])| == i + |Join(cs)|
  {
    var rest := cs[1..];
    j := i + |ToString(cs[0])|;
    next := if |cs| >= 2 then j + 1 else j;
    JoinHead(cs, text, i, close);
    StartChar(cs[0], text, i);
    if |rest| >= 1 {
      SpacedHead(rest, text, j, close);
      assert Printable(rest[0]) && !OpensWithDoubleColon(rest[0]);
      NoAnnotationBetween(rest, text, j, close);
    } else {
      assert Spaced(rest) == [] && Join(rest) == [];
      RunEndAt(text, j, j, IsSpace);
      if close == ")" {
        AtChar(text, j, close, 0);
      }
    }
  }

  /** Appending the first of `cs`, then the rest, appends `cs`. */
  lemma AppendFirst(acc: seq<Form>, cs: seq<Form>)
    requires |cs| >= 1
    ensures acc + [cs[0]] + cs[1..] == acc + cs
  {
    assert cs == [cs[0]] + cs[1..];
  }

  /** One turn of the `parseForm` loop at the first character of an
      element: no whitespace to skip, then the element. */
  lemma ItemsStep(s: ParserStream, acc: seq<Form>)
    requires s.Wf() && s.index < |s.text| && !IsSpace(s.text[s.index]) && s.text[s.index] != ')'
    ensures var e := ParseCompoundForm(Consume(s));
      FormItems(s, acc)
        == if e.outcome.Success? then FormItems(e.stream, acc + [e.outcome.value])
           else Parsed(Fail(ErrorsOf(e.outcome)), e.stream)
  {
    RunEndAt(s.text, s.index, s.index, IsSpace);
    assert ParseWhitespace(s).stream == Consume(s);
  }

  /** One turn of the `parse` loop at the first character of an element. */
  lemma TopStep(s: ParserStream, acc: seq<Form>)
    requires s.Wf() && s.index < |s.text| && !IsSpace(s.text[s.index])
    ensures var e := ParseCompoundForm(Consume(s));
      TopLevel(s, acc)
        == if e.outcome.Success? then TopLevel(e.stream, acc + [e.outcome.value])
           else Parsed(Fail(ErrorsOf(e.outcome)), e.stream)
  {
    RunEndAt(s.text, s.index, s.index, IsSpace);
    assert ParseWhitespace(s) == Parsed(Success(()), Consume(s));
  }

  /** The children of a printed compound, followed by `)`, read back as
      those children, appended in order after the ones read before. */
  lemma {:induction false} ItemsReadBack(cs: seq<Form>, s: ParserStream, acc: seq<Form>, text: string)
    requires s.Wf() && s.text == text && PrintableSeq(cs) && At(text, s.index, Join(cs) + ")")
    ensures var r := FormItems(s, acc);
      r.outcome == Success(acc + cs) && r.stream.index == s.index + |Join(cs)| + 1
    decreases cs, 0
  {
    if |cs| == 0 {
      AtChar(text, s.index, Join(cs) + ")", 0);
      RunEndAt(text, s.index, s.index, IsSpace);
      assert acc + cs == acc;
    } else {
      var f := cs[0];
      var j, next := JoinLayout(cs, text, s.index, ")");
      ItemsStep(s, acc);
      ElementReadsBack(f, Consume(s), text, j);
      var e := ParseCompoundForm(Consume(s));
      ItemsReadBack(cs[1..], e.stream, acc + [f], text);
      AppendFirst(acc, cs);
    }
  }

  /** The top-level forms of a printed sequence, up to the end of input,
      read back as those forms, appended in order after the ones read
      before. */
  lemma {:induction false} TopReadsBack(cs: seq<Form>, s: ParserStream, acc: seq<Form>, text: string)
    requires s.Wf() && s.text == text && PrintableSeq(cs)
    requires At(text, s.index, Join(cs) + "") && s.index + |Join(cs)| == |text|
    ensures TopLevel(s, acc).outcome == Success(acc + cs)
    decreases cs
  {
    if |cs| == 0 {
      RunEndAt(text, s.index, s.index, IsSpace);
      assert acc + cs == acc;
    } else {
      var f := cs[0];
      var j, next := JoinLayout(cs, text, s.index, "");
      TopStep(s, acc);
      ElementReadsBack(f, Consume(s), text, j);
      var e := ParseCompoundForm(Consume(s));
      TopReadsBack(cs[1..], e.stream, acc + [f], text);
      AppendFirst(acc, cs);
    }
  }

  /** Reading the printed text of printable forms, none of which but the
      first opens with `::`, gives back those forms as the root compound. */
  lemma PrintedSequenceReadsBack(fs: seq<Form>)
    requires PrintableSeq(fs)
    ensures ParseText(Join(fs)) == Success(Compound(fs, None))
  {
    var text := Join(fs);
    var s := NewStream(text);
    assert text + "" == text;
    assert At(text, 0, text + "");
    TopReadsBack(fs, s, [], text);
    assert [] + fs == fs;
  }

  /** Printing a printable form and reading the text back gives the root
      compound holding just that form. */
  lemma PrintedFormReadsBack(f: Form)
    requires Printable(f)
    ensures ParseText(ToString(f)) == Success(Compound([f], None))
  {
    assert Join([f]) == ToString(f) + Spaced([]);
    assert ToString(f) + Spaced([]) == ToString(f);
    PrintedSequenceReadsBack([f]);
  }
}
