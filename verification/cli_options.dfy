/** The command-line tokenizer (src/cli-options.cpp).

    `parse` turns the arguments after the program name into options, one
    per token, and ends the list with an invalid option for the null entry
    that terminates `argv`. Each token's option is appended after the
    options of the tokens that follow it, so the list comes out reversed.
    A token is modelled as the characters of its C string; `argv` is
    modelled as a sequence whose end stands for the null entry, and `argc`
    as its length. */
module CliOptions {

  /** An option: a key, a value, and whether it is valid. */
  datatype Option = Option(key: string, value: string, valid: bool)

  /** `Option()`: empty key and value, valid. */
  function Empty(): (o: Option)
    ensures o.key == "" && o.value == "" && o.valid
  {
    Option("", "", true)
  }

  /** `Option(key, value)`: both kept as given, valid. */
  function KeyValue(key: string, value: string): (o: Option)
    ensures o.key == key && o.value == value && o.valid
  {
    Option(key, value, true)
  }

  /** An `Option()` whose `valid` was then cleared: what the null entry
      gives, and what a failed lookup returns. */
  function Invalid(): (o: Option)
    ensures o.key == "" && o.value == "" && !o.valid
  {
    Empty().(valid := false)
  }

  // ---------------------------------------------------------------- tokens

  /** The tokens that give an empty option: ``, `-` and `--`. */
  predicate IsBare(arg: string) {
    arg == "" || arg == "-" || arg == "--"
  }

  /** `-k…`: one dash, then a key character that is not a dash. */
  predicate IsShort(arg: string) {
    |arg| >= 2 && arg[0] == '-' && arg[1] != '-'
  }

  /** `--…` with something after the two dashes. */
  predicate IsLong(arg: string) {
    |arg| >= 3 && arg[0] == '-' && arg[1] == '-'
  }

  /** Anything else is a positional argument: it does not start with a
      dash. */
  predicate IsPositional(arg: string) {
    |arg| >= 1 && arg[0] != '-'
  }

  /** The position of the first `=` at or after `i`, or the length. */
  function FindEquals(arg: string, i: nat): (j: nat)
    requires i <= |arg|
    ensures i <= j <= |arg|
    ensures forall k :: i <= k < j ==> arg[k] != '='
    ensures j < |arg| ==> arg[j] == '='
    decreases |arg| - i
  {
    if i == |arg| || arg[i] == '=' then i else FindEquals(arg, i + 1)
  }

  /** `parseDouble`: the key is everything after `--` up to the first `=`
      and the value everything after it; without `=`, the key is all of
      it and the value is empty. The search starts at the first dash,
      which cannot be `=`. */
  function LongOption(arg: string): (o: Option)
    requires IsLong(arg)
    ensures o.valid && '=' !in o.key
    ensures '=' in arg ==> arg == "--" + o.key + "=" + o.value
    ensures '=' !in arg ==> arg == "--" + o.key && o.value == ""
  {
    var j := FindEquals(arg, 0);
    if j < |arg| then
      var o := KeyValue(arg[2..j], arg[j + 1..]);
      assert arg == "--" + o.key + "=" + o.value by {
        assert arg == arg[..2] + arg[2..j] + [arg[j]] + arg[j + 1..];
      }
      o
    else
      assert arg == arg[..2] + arg[2..];
      KeyValue(arg[2..], "")
  }

  /** `parseToken` together with the lambda it selects: the option one
      token gives. */
  function TokenOption(arg: string): (o: Option)
    ensures o.valid
    ensures IsBare(arg) ==> o == Empty()
    ensures IsShort(arg) ==> |o.key| == 1 && arg == "-" + o.key + o.value
    ensures IsLong(arg) ==> o == LongOption(arg)
    ensures IsPositional(arg) ==> o.key == "" && o.value == arg
  {
    if |arg| == 0 then Empty()
    else if arg[0] == '-' then
      if |arg| == 1 then Empty()
      else if arg[1] == '-' then
        if |arg| == 2 then Empty() else LongOption(arg)
      else
        assert arg == "-" + [arg[1]] + arg[2..];
        KeyValue([arg[1]], arg[2..])
    else KeyValue("", arg)
  }

  /** Every token is of exactly one kind. */
  lemma TokenKinds(arg: string)
    ensures IsBare(arg) || IsShort(arg) || IsLong(arg) || IsPositional(arg)
    ensures !(IsBare(arg) && IsShort(arg)) && !(IsBare(arg) && IsLong(arg))
    ensures !(IsBare(arg) && IsPositional(arg)) && !(IsShort(arg) && IsLong(arg))
    ensures !(IsShort(arg) && IsPositional(arg)) && !(IsLong(arg) && IsPositional(arg))
  {
  }

  // ---------------------------------------------------------------- argument lists

  /** The recursion of `parse` from a token on: the invalid option for the
      terminating null entry, then each token's option pushed after the
      options of the tokens that follow it. */
  function ParseTokens(tokens: seq<string>): (os: seq<Option>)
    ensures |os| == |tokens| + 1
    ensures os[0] == Invalid()
    ensures forall i :: 0 <= i < |tokens| ==> os[|tokens| - i] == TokenOption(tokens[i])
  {
    if |tokens| == 0 then [Invalid()]
    else ParseTokens(tokens[1..]) + [TokenOption(tokens[0])]
  }

  /** `parse(argc, argv)`: nothing when `argc` is 0; otherwise the options
      of the tokens after the program name, whose own text is never read. */
  function ParseArgs(argv: seq<string>): (os: seq<Option>)
    ensures |argv| == 0 ==> os == []
    ensures |argv| > 0 ==> os == ParseTokens(argv[1..])
  {
    if |argv| == 0 then [] else ParseTokens(argv[1..])
  }

  /** The program name never matters. */
  lemma ProgramNameIgnored(argv: seq<string>, other: seq<string>)
    requires |argv| > 0 && |other| > 0 && argv[1..] == other[1..]
    ensures ParseArgs(argv) == ParseArgs(other)
  {
  }

  /** The list holds the sentinel first and then the tokens' options from
      the last token to the first. */
  lemma ParseArgsReversed(argv: seq<string>)
    requires |argv| > 0
    ensures var os := ParseArgs(argv);
      && |os| == |argv|
      && os[0] == Invalid()
      && forall i :: 1 <= i < |argv| ==> os[|argv| - i] == TokenOption(argv[i])
  {
    var os := ParseTokens(argv[1..]);
    forall i | 1 <= i < |argv|
      ensures os[|argv| - i] == TokenOption(argv[i])
    {
      assert argv[1..][i - 1] == argv[i];
    }
  }

  // ---------------------------------------------------------------- lookup

  predicate Matches(o: Option, key: string) {
    o.valid && o.key == key
  }

  /** The position of the first valid option with `key`, or the length. */
  function FirstMatch(os: seq<Option>, key: string): (i: nat)
    ensures i <= |os|
    ensures i < |os| ==> Matches(os[i], key)
    ensures forall j :: 0 <= j < i ==> !Matches(os[j], key)
  {
    if |os| == 0 then 0
    else if Matches(os[0], key) then 0
    else 1 + FirstMatch(os[1..], key)
  }

  /** `option_get`: the first valid option with `key`; an invalid option
      when there is none. */
  function Get(os: seq<Option>, key: string): (o: Option)
    ensures o.valid ==> o.key == key && o in os
    ensures o.valid ==> exists i :: 0 <= i < |os| && os[i] == o && forall j :: 0 <= j < i ==> !Matches(os[j], key)
    ensures !o.valid <==> forall i :: 0 <= i < |os| ==> !Matches(os[i], key)
    ensures !o.valid ==> o == Invalid()
  {
    var i := FirstMatch(os, key);
    if i < |os| then os[i] else Invalid()
  }

  /** On the command line the last token with a key wins: the lookup gives
      the option of the last token whose option has that key, and the
      invalid option when no token has it. */
  lemma {:induction false} LastOccurrenceWins(argv: seq<string>, key: string)
    requires |argv| > 0
    ensures var o := Get(ParseArgs(argv), key);
      && ((forall i :: 1 <= i < |argv| ==> TokenOption(argv[i]).key != key) ==> o == Invalid())
      && (forall i :: 1 <= i < |argv| && TokenOption(argv[i]).key == key
            && (forall j :: i < j < |argv| ==> TokenOption(argv[j]).key != key)
            ==> o == TokenOption(argv[i]))
  {
    var os := ParseArgs(argv);
    ParseArgsReversed(argv);
    var n := |argv|;
    forall i | 1 <= i < n && TokenOption(argv[i]).key == key
        && (forall j :: i < j < n ==> TokenOption(argv[j]).key != key)
      ensures Get(os, key) == TokenOption(argv[i])
    {
      assert Matches(os[n - i], key);
      forall q | 0 < q < n - i
        ensures !Matches(os[q], key)
      {
        assert os[q] == TokenOption(argv[n - q]);
      }
      assert FirstMatch(os, key) == n - i;
    }
    if forall i :: 1 <= i < n ==> TokenOption(argv[i]).key != key {
      forall p | 0 <= p < n
        ensures !Matches(os[p], key)
      {
        if p > 0 {
          assert os[p] == TokenOption(argv[n - p]);
        }
      }
    }
  }
}
