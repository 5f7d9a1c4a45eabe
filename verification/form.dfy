/** The syntax tree (`Form`) and its printer (`Form::toString`).

    Every node is an unsigned 64-bit integer, a compound of child forms or
    an identifier, and every node may carry a type annotation, itself a
    form, written after the node with `::`. */
module Forms {
  import opened Chars
  import opened Optional

  const U64_LIMIT: nat := 0x1_0000_0000_0000_0000

  /** `uint64_t`. */
  type u64 = n: nat | n < U64_LIMIT

  datatype Form =
    | Integer(value: u64, annotation: Option<Form>)
    | Compound(children: seq<Form>, annotation: Option<Form>)
    | Identifier(name: string, annotation: Option<Form>)

  /** The number of opening minus the number of closing parentheses in
      `s`. */
  function Depth(s: string): int {
    if |s| == 0 then 0
    else Depth(s[..|s| - 1]) + (if s[|s| - 1] == '(' then 1 else if s[|s| - 1] == ')' then -1 else 0)
  }

  lemma {:induction false} DepthConcat(a: string, b: string)
    ensures Depth(a + b) == Depth(a) + Depth(b)
    decreases |b|
  {
    if |b| == 0 {
      assert a + b == a;
    } else {
      assert (a + b)[..|a + b| - 1] == a + b[..|b| - 1];
      DepthConcat(a, b[..|b| - 1]);
    }
  }

  /** The depth counts the parentheses. */
  lemma {:induction false} DepthCounts(s: string)
    ensures Depth(s) == multiset(s)['('] as int - multiset(s)[')'] as int
  {
    if |s| > 0 {
      var init := s[..|s| - 1];
      DepthCounts(init);
      assert s == init + [s[|s| - 1]];
    }
  }

  /** Text without parentheses has depth 0. */
  lemma {:induction false} DepthFree(s: string)
    requires forall k :: 0 <= k < |s| ==> s[k] != '(' && s[k] != ')'
    ensures Depth(s) == 0
  {
    if |s| > 0 {
      DepthFree(s[..|s| - 1]);
    }
  }

  /** The printed text of a form: its body, then `::` and the annotation
      when there is one. The text of a printable form has as many opening
      as closing parentheses. */
  function ToString(f: Form): (r: string)
    ensures Printable(f) ==> Depth(r) == 0
    decreases f, 2
  {
    match f.annotation
    case None => Body(f)
    case Some(a) =>
      DepthConcat(Body(f), "::");
      DepthConcat(Body(f) + "::", ToString(a));
      Body(f) + "::" + ToString(a)
  }

  /** The printed text of a form without its annotation: an integer in
      decimal, an identifier verbatim, a compound as its children separated
      by single spaces in parentheses. */
  function Body(f: Form): (r: string)
    ensures Printable(f) ==> Depth(r) == 0
    decreases f, 1
  {
    match f
    case Integer(n, _) =>
      DepthFree(NatToDecimal(n));
      NatToDecimal(n)
    case Compound(cs, _) =>
      DepthConcat("(", Join(cs));
      DepthConcat("(" + Join(cs), ")");
      "(" + Join(cs) + ")"
    case Identifier(name, _) =>
      if ValidName(name) then DepthFree(name); name else name
  }

  /** The form without its annotation. */
  function Bare(f: Form): (g: Form)
    ensures g.annotation.None?
  {
    match f
    case Integer(n, _) => Integer(n, None)
    case Compound(cs, _) => Compound(cs, None)
    case Identifier(name, _) => Identifier(name, None)
  }

  /** The children of a compound separated by single spaces. */
  function Join(cs: seq<Form>): (r: string)
    ensures (forall k :: 0 <= k < |cs| ==> Printable(cs[k])) ==> Depth(r) == 0
    decreases cs, 0
  {
    if |cs| == 0 then ""
    else
      DepthConcat(ToString(cs[0]), Spaced(cs[1..]));
      ToString(cs[0]) + Spaced(cs[1..])
  }

  /** Each form preceded by one space. */
  function Spaced(cs: seq<Form>): (r: string)
    ensures (forall k :: 0 <= k < |cs| ==> Printable(cs[k])) ==> Depth(r) == 0
    decreases cs, 0
  {
    if |cs| == 0 then ""
    else
      DepthConcat(" ", ToString(cs[0]));
      DepthConcat(" " + ToString(cs[0]), Spaced(cs[1..]));
      " " + ToString(cs[0]) + Spaced(cs[1..])
  }

  /** A character that may continue an identifier: printable, and neither
      whitespace nor a delimiter. */
  predicate NameChar(c: char) {
    IsPrint(c) && !IsSpace(c) && !IsSpecial(c)
  }

  /** An identifier that prints as itself and reads back as itself: its
      first character is printable, not whitespace, not a parenthesis and
      not a digit (a colon is allowed), and the rest are name characters. */
  predicate ValidName(name: string) {
    && |name| >= 1
    && IsPrint(name[0]) && !IsSpace(name[0]) && name[0] != '(' && name[0] != ')'
    && !IsDigit(name[0])
    && forall k :: 1 <= k < |name| ==> NameChar(name[k])
  }

  /** A form whose text begins with `::`: the one-colon identifier with an
      annotation prints as `:::…`. */
  predicate OpensWithDoubleColon(f: Form) {
    f.Identifier? && f.name == ":" && f.annotation.Some?
  }

  /** Forms that the reader reads back from their printed text. */
  predicate Printable(f: Form)
    decreases f
  {
    && (match f
        case Integer(_, _) => true
        case Identifier(name, _) => ValidName(name)
        case Compound(cs, _) =>
          forall k :: 0 <= k < |cs| ==> Printable(cs[k]) && (k > 0 ==> !OpensWithDoubleColon(cs[k])))
    && (f.annotation.Some? ==> Printable(f.annotation.value))
  }

  /** A sequence of printable forms, none but the first opening with `::`. */
  predicate PrintableSeq(fs: seq<Form>) {
    forall k :: 0 <= k < |fs| ==> Printable(fs[k]) && (k > 0 ==> !OpensWithDoubleColon(fs[k]))
  }
}
