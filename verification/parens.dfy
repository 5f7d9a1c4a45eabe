/** Parentheses in what the reader accepts.

    Every rule of the reader reads a stretch of text whose opening and
    closing parentheses balance: whitespace, digits and names hold none, a
    parenthesised form holds its `(`, children that balance, and its `)`.
    So an unmatched parenthesis never reads as a success; what it is
    reported as depends on where the input ends (see `ReaderProps`). */
module Parentheses {
  import opened Chars
  import opened Streams
  import opened Forms
  import opened Reader

  /** What position `k` adds to the balance; past the end of the text the
      stream shows a space, which adds nothing. */
  function Delta(text: string, k: nat): int {
    if k < |text| && text[k] == '(' then 1
    else if k < |text| && text[k] == ')' then -1
    else 0
  }

  /** Opening minus closing parentheses at positions `i` to `j - 1`. */
  function Balance(text: string, i: nat, j: nat): int
    decreases j
  {
    if j <= i then 0 else Balance(text, i, j - 1) + Delta(text, j - 1)
  }

  lemma {:induction false} BalanceSplit(text: string, i: nat, j: nat, k: nat)
    requires i <= j <= k
    ensures Balance(text, i, k) == Balance(text, i, j) + Balance(text, j, k)
    decreases k
  {
    if k > j {
      BalanceSplit(text, i, j, k - 1);
    }
  }

  /** A stretch without parentheses balances. */
  lemma {:induction false} BalanceFree(text: string, i: nat, j: nat)
    requires forall k :: i <= k < j && k < |text| ==> text[k] != '(' && text[k] != ')'
    ensures Balance(text, i, j) == 0
    decreases j
  {
    if j > i {
      BalanceFree(text, i, j - 1);
    }
  }

  /** From the start of the text, the balance is the depth of the prefix. */
  lemma {:induction false} BalanceIsDepth(text: string, j: nat)
    requires j <= |text|
    ensures Balance(text, 0, j) == Depth(text[..j])
  {
    if j > 0 {
      BalanceIsDepth(text, j - 1);
      assert text[..j][..j - 1] == text[..j - 1];
    }
  }

  // ---------------------------------------------------------------- runs

  lemma WhitespaceBalance(s: ParserStream)
    ensures Balance(s.text, s.index, ParseWhitespace(s).stream.index) == 0
  {
    RunSatisfies(s.text, s.index, IsSpace);
    BalanceFree(s.text, s.index, RunEnd(s.text, s.index, IsSpace));
  }

  lemma IntBalance(s: ParserStream)
    ensures var r := ParseInt(s);
      r.outcome.Success? ==> Balance(s.text, s.index, r.stream.index) == 0
  {
    IntReadsRun(s);
    var ds := DigitRun(s.text, s.index);
    if |ds| > 0 {
      RunSatisfies(s.text, s.index, IsDigit);
      BalanceFree(s.text, s.index, RunEnd(s.text, s.index, IsDigit));
    }
  }

  /** Whatever the identifier rule reads, success or not, balances. */
  lemma IdentifierBalance(s: ParserStream)
    ensures Balance(s.text, s.index, ParseIdentifier(s).stream.index) == 0
  {
    IdentifierReadsRun(s);
    var c := Peek(s);
    if NameStart(c) {
      if IsFinished(s) {
        BalanceFree(s.text, s.index, s.index + 1);
      } else {
        var j := RunEnd(s.text, s.index + 1, NameChar);
        RunSatisfies(s.text, s.index + 1, NameChar);
        BalanceFree(s.text, s.index, j);
      }
    }
  }

  // ---------------------------------------------------------------- forms

  /** A compound form read with its annotation balances. */
  lemma {:induction false} CompoundBalance(s: ParserStream)
    requires s.Wf()
    ensures var r := ParseCompoundForm(s);
      r.outcome.Success? ==> Balance(s.text, s.index, r.stream.index) == 0
    decreases Remaining(s), 3
  {
    var e := ParseElement(s);
    ElementBalance(s);
    if e.outcome.Success? {
      var r := Annotate(e.outcome.value, e.stream);
      AnnotateBalance(e.outcome.value, e.stream);
      if r.outcome.Success? {
        BalanceSplit(s.text, s.index, e.stream.index, r.stream.index);
      }
    }
  }

  lemma {:induction false} ElementBalance(s: ParserStream)
    requires s.Wf()
    ensures var r := ParseElement(s);
      r.outcome.Success? ==> Balance(s.text, s.index, r.stream.index) == 0
    decreases Remaining(s), 2
  {
    var a := ParseInt(s);
    IntBalance(s);
    if a.outcome.Next? {
      var b := ParseIdentifier(s);
      IdentifierBalance(s);
      if b.outcome.Next? {
        var f := ParseForm(b.stream);
        FormBalance(b.stream);
        if f.outcome.Success? {
          BalanceSplit(s.text, s.index, b.stream.index, f.stream.index);
        }
      }
    }
  }

  /** The annotation lookahead balances whenever it succeeds: it reads
      whitespace, or whitespace, `::`, whitespace and a compound form. */
  lemma {:induction false} AnnotateBalance(f: Form, e: ParserStream)
    requires e.Wf()
    ensures var r := Annotate(f, e);
      r.outcome.Success? ==> Balance(e.text, e.index, r.stream.index) == 0
    decreases Remaining(e), 1
  {
    var text := e.text;
    var r := Annotate(f, e);
    var w := ParseWhitespace(Copy(e));
    WhitespaceBalance(Copy(e));
    if w.outcome.Fail? || Peek(w.stream) != ':' {
      assert r.stream.index == w.stream.index;
    } else {
      var c := Read(w.stream);
      if Peek(c) != ':' {
        assert r.stream.index == w.stream.index;
      } else {
        var k := w.stream.index;
        assert c.text == text && c.index == k + 1;
        assert k + 1 < |text| && text[k] == ':' && text[k + 1] == ':';
        var w2 := ParseWhitespace(Read(c));
        if !w2.outcome.Fail? {
          var a := ParseCompoundForm(w2.stream);
          if a.outcome.Success? {
            assert r.stream.index == a.stream.index;
            WhitespaceBalance(Read(c));
            CompoundBalance(w2.stream);
            AnnotationBalance(text, e.index, k, w2.stream.index, a.stream.index);
          }
        }
      }
    }
  }

  /** Whitespace, `::`, whitespace and a form that balance together
      balance. */
  lemma AnnotationBalance(text: string, i: nat, k: nat, j: nat, m: nat)
    requires i <= k && k + 2 <= j <= m && k + 1 < |text| && text[k] == ':' && text[k + 1] == ':'
    requires Balance(text, i, k) == 0 && Balance(text, k + 2, j) == 0 && Balance(text, j, m) == 0
    ensures Balance(text, i, m) == 0
  {
    ColonsBalance(text, k);
    BalanceSplit(text, i, k, k + 2);
    BalanceSplit(text, i, k + 2, j);
    BalanceSplit(text, i, j, m);
  }

  /** The `::` of an annotation balances. */
  lemma ColonsBalance(text: string, k: nat)
    requires k + 1 < |text| && text[k] == ':' && text[k + 1] == ':'
    ensures Balance(text, k, k + 2) == 0
  {
    BalanceFree(text, k, k + 2);
  }

  /** A parenthesised form balances: its `(` is matched by the `)` that
      ends its children. */
  lemma {:induction false} FormBalance(s: ParserStream)
    requires s.Wf()
    ensures var r := ParseForm(s);
      r.outcome.Success? ==> Balance(s.text, s.index, r.stream.index) == 0
    decreases Remaining(s), 1
  {
    if Peek(s) == '(' {
      var r := FormItems(Read(s), []);
      ItemsBalance(Read(s), []);
      if r.outcome.Success? {
        assert !IsFinished(s) && s.text[s.index] == '(';
        assert Balance(s.text, s.index, s.index + 1) == 1;
        BalanceSplit(s.text, s.index, s.index + 1, r.stream.index);
      }
    }
  }

  /** The children of a form up to and including its `)` hold one closing
      parenthesis more than opening ones. */
  lemma {:induction false} ItemsBalance(s: ParserStream, acc: seq<Form>)
    requires s.Wf()
    ensures var r := FormItems(s, acc);
      r.outcome.Success? ==> Balance(s.text, s.index, r.stream.index) == -1
    decreases Remaining(s), 4
  {
    var t := ParseWhitespace(s).stream;
    WhitespaceBalance(s);
    if !IsFinished(t) {
      if Peek(t) == ')' {
        BalanceSplit(s.text, s.index, t.index, t.index + 1);
      } else {
        var e := ParseCompoundForm(t);
        CompoundBalance(t);
        if e.outcome.Success? {
          var r := FormItems(e.stream, acc + [e.outcome.value]);
          ItemsBalance(e.stream, acc + [e.outcome.value]);
          if r.outcome.Success? {
            BalanceSplit(s.text, s.index, t.index, e.stream.index);
            BalanceSplit(s.text, s.index, e.stream.index, r.stream.index);
          }
        }
      }
    }
  }

  /** The top-level loop balances from where it starts to where it stops. */
  lemma {:induction false} TopBalance(s: ParserStream, acc: seq<Form>)
    requires s.Wf()
    ensures var r := TopLevel(s, acc);
      r.outcome.Success? ==> Balance(s.text, s.index, r.stream.index) == 0
    decreases Remaining(s)
  {
    var w := ParseWhitespace(s);
    WhitespaceBalance(s);
    if w.outcome.Success? {
      var e := ParseCompoundForm(w.stream);
      CompoundBalance(w.stream);
      if e.outcome.Success? {
        var r := TopLevel(e.stream, acc + [e.outcome.value]);
        TopBalance(e.stream, acc + [e.outcome.value]);
        if r.outcome.Success? {
          BalanceSplit(s.text, s.index, w.stream.index, e.stream.index);
          BalanceSplit(s.text, s.index, e.stream.index, r.stream.index);
        }
      }
    }
  }

  /** A text the reader accepts has as many opening as closing
      parentheses: an unmatched parenthesis never reads as a success. */
  lemma ParsedParenthesesBalance(text: string)
    ensures ParseText(text).Success? ==> multiset(text)['('] == multiset(text)[')']
  {
    var s := NewStream(text);
    var r := TopLevel(s, []);
    TopBalance(s, []);
    if r.outcome.Success? {
      BalanceSplit(text, 0, |text|, r.stream.index);
      BalanceFree(text, |text|, r.stream.index);
      BalanceIsDepth(text, |text|);
      assert text[..|text|] == text;
      DepthCounts(text);
    }
  }
}
