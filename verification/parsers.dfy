/** A monadic parser-combinator library in the style of Haskell's Parsec.

    A parser is a total function from the input text to either failure or the
    parsed value together with the unconsumed rest of the input. Every
    combinator builds a new parser from existing ones without changing them.
    Characters are `char`s rather than one-character strings, so joining a list
    of parsed characters is the list itself.

    The combinators are plain definitions; what each one does on a given input
    is stated by a lemma named after it (`SatisfyRuns`, `StringRuns`, ...),
    which describes the result directly, without the combinators it is built
    from. */
module Parsers {
  import opened Options

  /** Failure (`None`), or the parsed value with the remaining input. */
  type Result<E> = Option<(E, string)>

  datatype Parser<E> = Parser(run: string -> Result<E>)

  // ---------------------------------------------------------------------------
  // Core: running and composing parsers
  // ---------------------------------------------------------------------------

  /** Runs the parser and keeps only the value; the remaining input is dropped. */
  function Parse<E>(p: Parser<E>, input: string): (r: Option<E>)
    ensures r.None? <==> p.run(input).None?
    ensures r.Some? ==> r.value == p.run(input).value.0
  {
    match p.run(input)
    case None => None
    case Some((v, _)) => Some(v)
  }

  /** Applies `mapper` to the value of a successful parse. */
  function Map<E, T>(p: Parser<E>, mapper: E -> T): Parser<T> {
    Parser(s =>
      match p.run(s)
      case None => None
      case Some((v, rest)) => Some((mapper(v), rest)))
  }

  /** Monadic bind: the parser to run next is chosen from the value parsed so far
      and runs on the remaining input. */
  function AndThen<E, T>(p: Parser<E>, next: E -> Parser<T>): Parser<T> {
    Parser(s =>
      match p.run(s)
      case None => None
      case Some((v, rest)) => next(v).run(rest))
  }

  /** Left-biased choice: `other` runs on the original input only when `p` fails. */
  function Or<E>(p: Parser<E>, other: Parser<E>): Parser<E> {
    Parser(s =>
      match p.run(s)
      case None => other.run(s)
      case Some(_) => p.run(s))
  }

  /** Runs `p` then `other` and keeps the value of `p`. */
  function FollowedBy<E, T>(p: Parser<E>, other: Parser<T>): Parser<E> {
    AndThen(p, (x: E) => Map(other, (_: T) => x))
  }

  /** Runs `p` then `other` and keeps the value of `other`. */
  function Preceding<E, T>(p: Parser<E>, other: Parser<T>): Parser<T> {
    AndThen(p, (_: E) => other)
  }

  /** The function that ignores its argument and returns `b` (`_ => b`). */
  function Const<A, B>(b: B): A -> B {
    (_: A) => b
  }

  /** `FollowedBy` succeeds exactly when both parsers succeed in sequence, with
      the value of the first and the input left by the second. */
  lemma FollowedByRuns<E, T>(p: Parser<E>, other: Parser<T>, s: string)
    ensures FollowedBy(p, other).run(s) ==
      match p.run(s)
      case None => None
      case Some((x, mid)) =>
        match other.run(mid)
        case None => None
        case Some((_, rest)) => Some((x, rest))
  {
  }

  /** `Preceding` succeeds exactly when both parsers succeed in sequence, with
      the value and the remaining input of the second. */
  lemma PrecedingRuns<E, T>(p: Parser<E>, other: Parser<T>, s: string)
    ensures Preceding(p, other).run(s) ==
      match p.run(s)
      case None => None
      case Some((_, mid)) => other.run(mid)
  {
  }

  // ---------------------------------------------------------------------------
  // Primitive parsers
  // ---------------------------------------------------------------------------

  /** Consumes the first character; fails on empty input. */
  function Item(): Parser<char> {
    Parser(s => if |s| == 0 then None else Some((s[0], s[1..])))
  }

  /** Succeeds with `elem` without consuming input (`succeed` is the same parser). */
  function Pure<E>(elem: E): Parser<E> {
    Parser(s => Some((elem, s)))
  }

  /** Fails on every input. */
  function Fail<E>(): Parser<E> {
    Parser(s => None)
  }

  /** Succeeds with the unit value exactly on the empty input. */
  function EndOfInput(): Parser<()> {
    Parser(s => if s == "" then Some(((), s)) else None)
  }

  // ---------------------------------------------------------------------------
  // Derived character parsers
  // ---------------------------------------------------------------------------

  /** One character that passes `pred`. */
  function Satisfy(pred: char -> bool): Parser<char> {
    AndThen(Item(), (x: char) => if pred(x) then Pure(x) else Fail())
  }

  /** One given character. */
  function Character(c: char): Parser<char> {
    Satisfy((x: char) => x == c)
  }

  /** The line break character. */
  function Newline(): Parser<char> {
    Character('\n')
  }

  /** A line break, or the end of the input. */
  function EndOfLine(): Parser<()> {
    Or(Map(Newline(), (_: char) => ()), EndOfInput())
  }

  /** `Satisfy` takes the first character exactly when there is one and it
      passes the predicate. */
  lemma SatisfyRuns(pred: char -> bool, s: string)
    ensures Satisfy(pred).run(s) ==
      if |s| > 0 && pred(s[0]) then Some((s[0], s[1..])) else None
  {
  }

  lemma CharacterRuns(c: char, s: string)
    ensures Character(c).run(s) ==
      if |s| > 0 && s[0] == c then Some((c, s[1..])) else None
  {
    SatisfyRuns((x: char) => x == c, s);
  }

  /** `EndOfLine` consumes a leading line break, succeeds without consuming at
      the end of the input, and fails on anything else. */
  lemma EndOfLineRuns(s: string)
    ensures EndOfLine().run(s) ==
      if |s| > 0 && s[0] == '\n' then Some(((), s[1..]))
      else if |s| == 0 then Some(((), s))
      else None
  {
    CharacterRuns('\n', s);
  }

  /** A given literal: the first character, then the rest of the literal, then
      the whole literal as the value. */
  function String(target: string): Parser<string>
    decreases |target|
  {
    if |target| == 0 then Pure("")
    else
      AndThen(AndThen(Character(target[0]), Const(String(target[1..]))), Const(Pure(target)))
  }

  /** `String(target)` succeeds exactly when `target` is a prefix of the input,
      returning `target` and the input after it. */
  lemma {:induction false} StringRuns(target: string, s: string)
    ensures String(target).run(s) ==
      if target <= s then Some((target, s[|target|..])) else None
    decreases |target|
  {
    if |target| > 0 {
      var tail := String(target[1..]);
      assert String(target) ==
        AndThen(AndThen(Character(target[0]), Const(tail)), Const(Pure(target)));
      CharacterRuns(target[0], s);
      PrefixStep(target, s);
      if |s| > 0 && s[0] == target[0] {
        StringRuns(target[1..], s[1..]);
      }
    }
  }

  /** `target` (non-empty) is a prefix of `s` exactly when its first character
      starts `s` and its tail is a prefix of the rest of `s`. */
  lemma PrefixStep(target: string, s: string)
    requires |target| > 0
    ensures target <= s <==> |s| > 0 && s[0] == target[0] && target[1..] <= s[1..]
    ensures |s| > 0 && target <= s ==> s[1..][|target| - 1..] == s[|target|..]
  {
    if |s| > 0 && s[0] == target[0] && target[1..] <= s[1..] {
      assert target == [target[0]] + target[1..];
      assert s[..|target|] == [s[0]] + s[1..][..|target| - 1];
    }
  }

  // ---------------------------------------------------------------------------
  // Repetition
  // ---------------------------------------------------------------------------

  /** The parser's successes always leave strictly less input than they got:
      the condition under which repeating it terminates. */
  ghost predicate Consuming<E>(p: Parser<E>) {
    forall s :: p.run(s).Some? ==> |p.run(s).value.1| < |s|
  }

  /** `vs` are the values of consecutive successes of `p` from `s`, and `rest` is
      the input left after the last of them. */
  ghost predicate Repeats<E>(p: Parser<E>, s: string, vs: seq<E>, rest: string)
    decreases |vs|
  {
    if |vs| == 0 then rest == s
    else
      && p.run(s).Some?
      && p.run(s).value.0 == vs[0]
      && Repeats(p, p.run(s).value.1, vs[1..], rest)
  }

  /** Where repetition stops: `p` fails there, or succeeds without shortening
      anything (for such a parser the repetition would never end). */
  ghost predicate Stops<E>(p: Parser<E>, rest: string) {
    p.run(rest).None? || |p.run(rest).value.1| >= |rest|
  }

  /** Runs `p` until it fails and collects the values; never fails. A success
      that does not shorten the input ends the run as a failure would. */
  function ManyRun<E>(p: Parser<E>, input: string): (r: Result<seq<E>>)
    ensures r.Some?
    ensures Repeats(p, input, r.value.0, r.value.1)
    ensures Stops(p, r.value.1)
    decreases |input|
  {
    match p.run(input)
    case None => Some(([], input))
    case Some((v, rest)) =>
      if |rest| >= |input| then Some(([], input))
      else
        var tail := ManyRun(p, rest).value;
        assert ([v] + tail.0)[1..] == tail.0;
        Some(([v] + tail.0, tail.1))
  }

  /** Zero or more repetitions: the run of consecutive successes of `p`. */
  function Many<E>(p: Parser<E>): Parser<seq<E>> {
    Parser(s => ManyRun(p, s))
  }

  /** For a consuming parser the run `Many` returns is maximal: it ends where
      `p` fails. */
  lemma ManyMaximal<E>(p: Parser<E>, s: string)
    requires Consuming(p)
    ensures Many(p).run(s).Some?
    ensures p.run(Many(p).run(s).value.1).None?
  {
    var rest := ManyRun(p, s).value.1;
    assert Stops(p, rest);
  }

  /** The converse of the contract of `ManyRun`: for a consuming parser, any run
      of successes that ends where `p` fails is the one `Many` returns. */
  lemma {:induction false} ManyUnique<E>(p: Parser<E>, s: string, vs: seq<E>, rest: string)
    requires Consuming(p)
    requires Repeats(p, s, vs, rest) && p.run(rest).None?
    ensures Many(p).run(s) == Some((vs, rest))
    decreases |vs|
  {
    if |vs| > 0 {
      var mid := p.run(s).value.1;
      assert |mid| < |s|;
      ManyUnique(p, mid, vs[1..], rest);
      assert vs == [vs[0]] + vs[1..];
    }
  }

  /** One or more repetitions (`some`): the result of `Many`, or a failure when
      that run is empty. */
  function Many1<E>(p: Parser<E>): Parser<seq<E>> {
    Parser(s => var m := ManyRun(p, s).value; if |m.0| == 0 then None else Some(m))
  }

  /** For a consuming parser, `Many1` fails exactly when the first attempt of `p`
      fails, and otherwise agrees with `Many`. */
  lemma Many1Runs<E>(p: Parser<E>, s: string)
    requires Consuming(p)
    ensures Many1(p).run(s).None? <==> p.run(s).None?
    ensures Many1(p).run(s).Some? ==> Many1(p).run(s) == Many(p).run(s)
  {
    if p.run(s).Some? {
      assert |p.run(s).value.1| < |s|;
      assert ManyRun(p, s).value.0 == [p.run(s).value.0] + ManyRun(p, p.run(s).value.1).value.0;
    }
  }

  /** The length of the longest prefix of `s` whose characters all pass `pred`. */
  function Span(pred: char -> bool, s: string): (k: nat)
    ensures k <= |s|
    ensures forall i :: 0 <= i < k ==> pred(s[i])
    ensures k < |s| ==> !pred(s[k])
    decreases |s|
  {
    if |s| > 0 && pred(s[0]) then 1 + Span(pred, s[1..]) else 0
  }

  /** A single-character parser consumes input whenever it succeeds. */
  lemma SatisfyConsuming(pred: char -> bool)
    ensures Consuming(Satisfy(pred))
  {
    forall s | Satisfy(pred).run(s).Some?
      ensures |Satisfy(pred).run(s).value.1| < |s|
    {
      SatisfyRuns(pred, s);
    }
  }

  /** Repeating a one-character parser takes the longest prefix passing its
      predicate. */
  lemma ManySatisfyRuns(pred: char -> bool, s: string)
    ensures Many(Satisfy(pred)).run(s) == Some((s[..Span(pred, s)], s[Span(pred, s)..]))
  {
    var k := Span(pred, s);
    SatisfyConsuming(pred);
    RepeatsSatisfy(pred, s, k);
    SatisfyRuns(pred, s[k..]);
    ManyUnique(Satisfy(pred), s, s[..k], s[k..]);
  }

  /** Every prefix of characters passing `pred` is a run of `Satisfy(pred)`. */
  lemma {:induction false} RepeatsSatisfy(pred: char -> bool, s: string, k: nat)
    requires k <= |s|
    requires forall i :: 0 <= i < k ==> pred(s[i])
    ensures Repeats(Satisfy(pred), s, s[..k], s[k..])
    decreases k
  {
    if k > 0 {
      SatisfyRuns(pred, s);
      RepeatsSatisfy(pred, s[1..], k - 1);
      assert s[..k][1..] == s[1..][..k - 1];
      assert s[1..][k - 1..] == s[k..];
    }
  }

  /** Repeating a one-character parser at least once fails exactly when the
      first character does not pass the predicate, and otherwise takes the
      longest prefix passing it. */
  lemma Many1SatisfyRuns(pred: char -> bool, s: string)
    ensures Many1(Satisfy(pred)).run(s) ==
      if Span(pred, s) == 0 then None else Some((s[..Span(pred, s)], s[Span(pred, s)..]))
  {
    ManySatisfyRuns(pred, s);
  }

  // ---------------------------------------------------------------------------
  // Whitespace
  // ---------------------------------------------------------------------------

  /** The characters matched by `\s` in an ECMAScript regular expression: the
      WhiteSpace and LineTerminator code points of ECMA-262 (sections 12.2 and
      12.3), where the space separators are those of Unicode category Zs. */
  predicate IsWhitespace(c: char) {
    var n := c as int;
    || n == 0x09 || n == 0x0B || n == 0x0C || n == 0x20 || n == 0xA0 || n == 0xFEFF
    || n == 0x1680 || (0x2000 <= n <= 0x200A) || n == 0x202F || n == 0x205F || n == 0x3000
    || n == 0x0A || n == 0x0D || n == 0x2028 || n == 0x2029
  }

  /** Joins a list of characters into text: the list itself, since characters
      are `char`s. */
  function Join(cs: seq<char>): string {
    cs
  }

  /** The leading run of whitespace, returned as text; never fails. */
  function Whitespace(): Parser<string> {
    Map(Many(Satisfy(IsWhitespace)), Join)
  }

  /** `Whitespace` returns the longest whitespace prefix and leaves the input
      after it, which is empty or starts with a non-whitespace character. */
  lemma WhitespaceRuns(s: string)
    ensures Whitespace().run(s) ==
      Some((s[..Span(IsWhitespace, s)], s[Span(IsWhitespace, s)..]))
    ensures var rest := Whitespace().run(s).value.1;
      |rest| == 0 || !IsWhitespace(rest[0])
  {
    ManySatisfyRuns(IsWhitespace, s);
  }

  // ---------------------------------------------------------------------------
  // Value parsers
  // ---------------------------------------------------------------------------

  /** The character set the `digit` parser accepts. It lacks '5'. */
  const DigitChars: string := "123467890"

  /** The ten decimal digits, as `naturalNumber` accepts them. */
  const DecimalDigitChars: string := "1234567890"

  predicate IsDigitChar(c: char) {
    c in DigitChars
  }

  predicate IsDecimalDigit(c: char) {
    c in DecimalDigitChars
  }

  /** The numeric value of a digit character (unary `+` on a one-digit string). */
  function DigitValue(c: char): int {
    (c as int) - ('0' as int)
  }

  /** The value of a digit string read in base ten, most significant digit first. */
  function DecimalValue(cs: string): int
    decreases |cs|
  {
    if |cs| == 0 then 0 else 10 * DecimalValue(cs[..|cs| - 1]) + DigitValue(cs[|cs| - 1])
  }

  /** The characters of `DecimalDigitChars` are exactly '0' to '9'. */
  lemma DecimalDigitRange(c: char)
    ensures IsDecimalDigit(c) <==> '0' <= c <= '9'
  {
    if '0' <= c <= '9' {
      assert c == DecimalDigitChars[(DigitValue(c) + 9) % 10];
    }
  }

  /** One digit as a number, from the set `DigitChars` as written. */
  function Digit(): Parser<int> {
    Map(Satisfy(IsDigitChar), DigitValue)
  }

  /** `Digit` reads one character of `DigitChars` as its value and fails on
      every other character. */
  lemma DigitRuns(s: string)
    ensures Digit().run(s) ==
      if |s| > 0 && s[0] in DigitChars then Some((DigitValue(s[0]), s[1..])) else None
  {
    SatisfyRuns(IsDigitChar, s);
  }

  /** `Digit` as written rejects the digit '5', which every other decimal digit
      parser accepts. */
  lemma DigitRejectsFive(s: string)
    requires |s| > 0 && s[0] == '5'
    ensures Digit().run(s).None?
    ensures DecimalDigit().run(s) == Some((5, s[1..]))
  {
    SatisfyRuns(IsDigitChar, s);
    assert !IsDigitChar('5');
    DecimalDigitRuns(s);
  }

  /** One decimal digit '0'..'9' as a number: the digit parser with '5' restored. */
  function DecimalDigit(): Parser<int> {
    Map(Satisfy(IsDecimalDigit), DigitValue)
  }

  /** `DecimalDigit` reads exactly the characters '0' to '9', as their values. */
  lemma DecimalDigitRuns(s: string)
    ensures DecimalDigit().run(s) ==
      if |s| > 0 && '0' <= s[0] <= '9' then Some((DigitValue(s[0]), s[1..])) else None
    ensures DecimalDigit().run(s).Some? ==> 0 <= DecimalDigit().run(s).value.0 <= 9
  {
    SatisfyRuns(IsDecimalDigit, s);
    if |s| > 0 {
      DecimalDigitRange(s[0]);
    }
  }

  /** The result of reading the longest leading digit run as a base-ten number;
      failure when the input does not start with a digit. */
  function ReadNatural(s: string): Result<int> {
    var k := Span(IsDecimalDigit, s);
    if k == 0 then None else Some((DecimalValue(s[..k]), s[k..]))
  }

  /** A maximal non-empty run of decimal digits, read as a base-ten number. */
  function NaturalNumber(): Parser<int> {
    Map(Many1(Satisfy(IsDecimalDigit)), DecimalValue)
  }

  /** `NaturalNumber` reads the longest leading digit run as a base-ten number
      and fails exactly when the input does not start with a digit. */
  lemma NaturalNumberRuns(s: string)
    ensures NaturalNumber().run(s) == ReadNatural(s)
  {
    Many1SatisfyRuns(IsDecimalDigit, s);
  }

  /** The negation of a parsed natural number. */
  function Negate(n: int): int {
    -n
  }

  /** A natural number, negated when preceded by '-'. */
  function Int(): Parser<int> {
    Or(AndThen(Character('-'), Const(Map(NaturalNumber(), Negate))), NaturalNumber())
  }

  /** `Int` reads a natural number, negated after a leading '-'; a '-' not
      followed by a digit fails. */
  lemma IntRuns(s: string)
    ensures Int().run(s) ==
      if |s| > 0 && s[0] == '-' then
        match ReadNatural(s[1..])
        case None => None
        case Some((n, rest)) => Some((-n, rest))
      else ReadNatural(s)
  {
    NaturalNumberRuns(s);
    if |s| > 0 {
      NaturalNumberRuns(s[1..]);
    }
    SignedRuns(NaturalNumber(), s);
  }

  /** The shape of `Int` over any parser that reads natural numbers. */
  lemma SignedRuns(natural: Parser<int>, s: string)
    requires natural.run(s) == ReadNatural(s)
    requires |s| > 0 ==> natural.run(s[1..]) == ReadNatural(s[1..])
    ensures Or(AndThen(Character('-'), Const(Map(natural, Negate))), natural).run(s) ==
      if |s| > 0 && s[0] == '-' then
        match ReadNatural(s[1..])
        case None => None
        case Some((n, rest)) => Some((-n, rest))
      else ReadNatural(s)
  {
    CharacterRuns('-', s);
    if |s| > 0 && s[0] == '-' {
      assert !IsDecimalDigit('-');
    }
  }

  /** The literal "true" or the literal "false", as a boolean. */
  function Bool(): Parser<bool> {
    Or(AndThen(String("true"), Const(Pure(true))), AndThen(String("false"), Const(Pure(false))))
  }

  /** `Bool` reads a leading "true" or "false" and fails on anything else. */
  lemma BoolRuns(s: string)
    ensures Bool().run(s) ==
      if "true" <= s then Some((true, s[4..]))
      else if "false" <= s then Some((false, s[5..]))
      else None
  {
    StringRuns("true", s);
    StringRuns("false", s);
  }

}
