/** Algebraic laws of the parser combinators, the recursive equation that
    defines `many`, the invariant that every parser leaves a suffix of its
    input, and the behaviour of the library parsers on concrete inputs. */
module ParserLaws {
  import opened Options
  import opened Parsers

  /** Two parsers give the same result on every input. */
  ghost predicate Equivalent<E>(p: Parser<E>, q: Parser<E>) {
    forall s :: p.run(s) == q.run(s)
  }

  // ---------------------------------------------------------------------------
  // Primitives
  // ---------------------------------------------------------------------------

  /** `Item` fails exactly on the empty input; on success its value followed by
      the remaining input is the whole input. */
  lemma ItemSplitsInput(s: string)
    ensures Item().run(s).None? <==> |s| == 0
    ensures Item().run(s).Some? ==> [Item().run(s).value.0] + Item().run(s).value.1 == s
  {
  }

  /** `Pure` never fails, returns its element and never consumes input. */
  lemma PureConsumesNothing<E>(x: E, s: string)
    ensures Pure(x).run(s) == Some((x, s))
  {
  }

  /** `EndOfInput` succeeds exactly on the empty input and consumes nothing. */
  lemma EndOfInputRuns(s: string)
    ensures EndOfInput().run(s).Some? <==> |s| == 0
    ensures EndOfInput().run(s).Some? ==> EndOfInput().run(s).value.1 == s
  {
  }

  // ---------------------------------------------------------------------------
  // Map: a functor
  // ---------------------------------------------------------------------------

  /** `Map` fails exactly when the underlying parser fails and leaves the same
      input; its value is the mapped value. */
  lemma MapRuns<E, T>(p: Parser<E>, f: E -> T, s: string)
    ensures Map(p, f).run(s).None? <==> p.run(s).None?
    ensures Map(p, f).run(s).Some? ==>
      Map(p, f).run(s).value == (f(p.run(s).value.0), p.run(s).value.1)
  {
  }

  /** Mapping the identity changes nothing. */
  lemma MapIdentity<E>(p: Parser<E>)
    ensures Equivalent(Map(p, (x: E) => x), p)
  {
  }

  /** Mapping twice is mapping the composition. */
  lemma MapFusion<A, B, C>(p: Parser<A>, f: A -> B, g: B -> C)
    ensures Equivalent(Map(Map(p, f), g), Map(p, (x: A) => g(f(x))))
  {
  }

  /** The continuation that returns `f` of its argument without consuming
      input (`x => pure(f(x))`). */
  function PureOf<E, T>(f: E -> T): E -> Parser<T> {
    (x: E) => Pure(f(x))
  }

  /** `Map` is binding to a parser that returns the mapped value. */
  lemma MapIsAndThenPure<E, T>(p: Parser<E>, f: E -> T)
    ensures Equivalent(Map(p, f), AndThen(p, PureOf(f)))
  {
    forall s
      ensures Map(p, f).run(s) == AndThen(p, PureOf(f)).run(s)
    {
      AndThenRuns(p, PureOf(f), s);
    }
  }

  // ---------------------------------------------------------------------------
  // AndThen and Pure: a monad
  // ---------------------------------------------------------------------------

  /** A failure of the first parser is the failure of the sequence; otherwise
      the next parser runs on what the first left. */
  lemma AndThenRuns<E, T>(p: Parser<E>, next: E -> Parser<T>, s: string)
    ensures p.run(s).None? ==> AndThen(p, next).run(s).None?
    ensures p.run(s).Some? ==>
      AndThen(p, next).run(s) == next(p.run(s).value.0).run(p.run(s).value.1)
  {
  }

  /** Left identity: binding a pure value runs the continuation on it. */
  lemma AndThenLeftIdentity<E, T>(x: E, f: E -> Parser<T>)
    ensures Equivalent(AndThen(Pure(x), f), f(x))
  {
  }

  /** Right identity: binding to `Pure` changes nothing. */
  lemma AndThenRightIdentity<E>(p: Parser<E>)
    ensures Equivalent(AndThen(p, (x: E) => Pure(x)), p)
  {
  }

  /** Associativity of sequencing. */
  lemma AndThenAssociative<A, B, C>(p: Parser<A>, f: A -> Parser<B>, g: B -> Parser<C>)
    ensures Equivalent(AndThen(AndThen(p, f), g), AndThen(p, (x: A) => AndThen(f(x), g)))
  {
    forall s
      ensures AndThen(AndThen(p, f), g).run(s) == AndThen(p, (x: A) => AndThen(f(x), g)).run(s)
    {
      AndThenRuns(p, f, s);
    }
  }

  /** A failing first parser makes the sequence fail, whatever follows. */
  lemma AndThenLeftZero<E, T>(f: E -> Parser<T>)
    ensures Equivalent(AndThen(Fail(), f), Fail())
  {
  }

  // ---------------------------------------------------------------------------
  // Or and Fail: left-biased choice
  // ---------------------------------------------------------------------------

  /** `Or` keeps the first success; only on failure does the second parser run,
      on the original input. It fails exactly when both fail. */
  lemma OrRuns<E>(p: Parser<E>, q: Parser<E>, s: string)
    ensures p.run(s).Some? ==> Or(p, q).run(s) == p.run(s)
    ensures p.run(s).None? ==> Or(p, q).run(s) == q.run(s)
    ensures Or(p, q).run(s).None? <==> p.run(s).None? && q.run(s).None?
  {
  }

  /** `Fail` is an identity for `Or` on both sides. */
  lemma OrFailIdentity<E>(p: Parser<E>)
    ensures Equivalent(Or(Fail(), p), p)
    ensures Equivalent(Or(p, Fail()), p)
  {
  }

  /** Choice is associative. */
  lemma OrAssociative<E>(p: Parser<E>, q: Parser<E>, r: Parser<E>)
    ensures Equivalent(Or(Or(p, q), r), Or(p, Or(q, r)))
  {
  }

  /** A parser that always succeeds makes the alternative unreachable. */
  lemma OrAfterPure<E>(x: E, q: Parser<E>)
    ensures Equivalent(Or(Pure(x), q), Pure(x))
  {
  }

  // ---------------------------------------------------------------------------
  // Repetition
  // ---------------------------------------------------------------------------

  /** The parser `many` is defined as in the library: one success followed by
      the repetition, with the value prepended, or else the empty list. */
  function ManyByDefinition<E>(p: Parser<E>): Parser<seq<E>> {
    Or(AndThen(p, (x: E) => Map(Many(p), (xs: seq<E>) => [x] + xs)), Pure([]))
  }

  /** `Many` satisfies the recursive equation that defines `many`, at every input
      where a success of `p` consumes something. */
  lemma ManyUnfoldsAt<E>(p: Parser<E>, s: string)
    requires p.run(s).Some? ==> |p.run(s).value.1| < |s|
    ensures Many(p).run(s) == ManyByDefinition(p).run(s)
  {
  }

  /** For a consuming parser, `Many` is a fixpoint of the equation that defines
      `many`. */
  lemma ManyUnfolds<E>(p: Parser<E>)
    requires Consuming(p)
    ensures Equivalent(Many(p), ManyByDefinition(p))
  {
    forall s
      ensures Many(p).run(s) == ManyByDefinition(p).run(s)
    {
      ManyUnfoldsAt(p, s);
    }
  }

  /** `Many` never fails; it returns an empty list, consuming nothing, exactly
      when the first attempt fails. */
  lemma ManyNeverFails<E>(p: Parser<E>, s: string)
    requires Consuming(p)
    ensures Many(p).run(s).Some?
    ensures |Many(p).run(s).value.0| == 0 <==> p.run(s).None?
    ensures p.run(s).None? ==> Many(p).run(s).value.1 == s
  {
    if p.run(s).Some? {
      assert |p.run(s).value.1| < |s|;
    }
  }

  // ---------------------------------------------------------------------------
  // The remaining input is a suffix of the input
  // ---------------------------------------------------------------------------

  predicate IsSuffix(rest: string, s: string) {
    |rest| <= |s| && s[|s| - |rest|..] == rest
  }

  lemma SuffixTransitive(a: string, b: string, c: string)
    requires IsSuffix(a, b) && IsSuffix(b, c)
    ensures IsSuffix(a, c)
  {
    assert c[|c| - |a|..] == c[|c| - |b|..][|b| - |a|..];
  }

  /** Every success of `p` leaves a suffix of its input. */
  ghost predicate KeepsSuffix<E>(p: Parser<E>) {
    forall s :: p.run(s).Some? ==> IsSuffix(p.run(s).value.1, s)
  }

  lemma ItemKeepsSuffix()
    ensures KeepsSuffix(Item())
  {
    forall s | Item().run(s).Some?
      ensures IsSuffix(Item().run(s).value.1, s)
    {
      assert s[|s| - (|s| - 1)..] == s[1..];
    }
  }

  lemma PureKeepsSuffix<E>(x: E)
    ensures KeepsSuffix(Pure(x))
  {
    forall s
      ensures IsSuffix(Pure(x).run(s).value.1, s)
    {
      assert s[|s| - |s|..] == s;
    }
  }

  lemma MapKeepsSuffix<E, T>(p: Parser<E>, f: E -> T)
    requires KeepsSuffix(p)
    ensures KeepsSuffix(Map(p, f))
  {
    forall s | Map(p, f).run(s).Some?
      ensures IsSuffix(Map(p, f).run(s).value.1, s)
    {
      MapRuns(p, f, s);
    }
  }

  lemma AndThenKeepsSuffix<E, T>(p: Parser<E>, next: E -> Parser<T>)
    requires KeepsSuffix(p)
    requires forall v :: KeepsSuffix(next(v))
    ensures KeepsSuffix(AndThen(p, next))
  {
    forall s | AndThen(p, next).run(s).Some?
      ensures IsSuffix(AndThen(p, next).run(s).value.1, s)
    {
      var (v, mid) := p.run(s).value;
      var q := next(v);
      assert KeepsSuffix(q);
      assert AndThen(p, next).run(s) == q.run(mid);
      SuffixTransitive(q.run(mid).value.1, mid, s);
    }
  }

  lemma OrKeepsSuffix<E>(p: Parser<E>, q: Parser<E>)
    requires KeepsSuffix(p) && KeepsSuffix(q)
    ensures KeepsSuffix(Or(p, q))
  {
    forall s | Or(p, q).run(s).Some?
      ensures IsSuffix(Or(p, q).run(s).value.1, s)
    {
      OrRuns(p, q, s);
    }
  }

  /** A run of successes of a suffix-keeping parser ends at a suffix of where it
      started. */
  lemma {:induction false} RepeatsKeepsSuffix<E>(p: Parser<E>, s: string, vs: seq<E>, rest: string)
    requires KeepsSuffix(p)
    requires Repeats(p, s, vs, rest)
    ensures IsSuffix(rest, s)
    decreases |vs|
  {
    if |vs| == 0 {
      assert s[|s| - |s|..] == s;
    } else {
      var mid := p.run(s).value.1;
      RepeatsKeepsSuffix(p, mid, vs[1..], rest);
      SuffixTransitive(rest, mid, s);
    }
  }

  lemma ManyKeepsSuffix<E>(p: Parser<E>)
    requires KeepsSuffix(p)
    ensures KeepsSuffix(Many(p))
  {
    forall s
      ensures IsSuffix(Many(p).run(s).value.1, s)
    {
      var r := ManyRun(p, s).value;
      RepeatsKeepsSuffix(p, s, r.0, r.1);
    }
  }

  lemma Many1KeepsSuffix<E>(p: Parser<E>)
    requires KeepsSuffix(p)
    ensures KeepsSuffix(Many1(p))
  {
    forall s | Many1(p).run(s).Some?
      ensures IsSuffix(Many1(p).run(s).value.1, s)
    {
      var r := ManyRun(p, s).value;
      RepeatsKeepsSuffix(p, s, r.0, r.1);
    }
  }

  /** Dropping a prefix leaves a suffix. */
  lemma DropIsSuffix(s: string, k: nat)
    requires k <= |s|
    ensures IsSuffix(s[k..], s)
  {
    assert s[|s| - (|s| - k)..] == s[k..];
  }

  lemma WhitespaceKeepsSuffix(s: string)
    ensures IsSuffix(Whitespace().run(s).value.1, s)
  {
    WhitespaceRuns(s);
    DropIsSuffix(s, Span(IsWhitespace, s));
  }

  lemma NaturalNumberKeepsSuffix(s: string)
    ensures NaturalNumber().run(s).Some? ==> IsSuffix(NaturalNumber().run(s).value.1, s)
  {
    NaturalNumberRuns(s);
    DropIsSuffix(s, Span(IsDecimalDigit, s));
  }

  lemma IntKeepsSuffix(s: string)
    ensures Int().run(s).Some? ==> IsSuffix(Int().run(s).value.1, s)
  {
    IntRuns(s);
    ReadNaturalKeepsSuffix(s);
    if |s| > 0 {
      ReadNaturalKeepsSuffix(s[1..]);
      DropIsSuffix(s, 1);
      if ReadNatural(s[1..]).Some? {
        SuffixTransitive(ReadNatural(s[1..]).value.1, s[1..], s);
      }
    }
  }

  lemma ReadNaturalKeepsSuffix(s: string)
    ensures ReadNatural(s).Some? ==> IsSuffix(ReadNatural(s).value.1, s)
  {
    DropIsSuffix(s, Span(IsDecimalDigit, s));
  }

  lemma BoolKeepsSuffix(s: string)
    ensures Bool().run(s).Some? ==> IsSuffix(Bool().run(s).value.1, s)
  {
    BoolRuns(s);
    if "true" <= s {
      DropIsSuffix(s, 4);
    } else if "false" <= s {
      DropIsSuffix(s, 5);
    }
  }

  lemma EndOfLineKeepsSuffix(s: string)
    ensures EndOfLine().run(s).Some? ==> IsSuffix(EndOfLine().run(s).value.1, s)
  {
    EndOfLineRuns(s);
    DropIsSuffix(s, 0);
    if |s| > 0 {
      DropIsSuffix(s, 1);
    }
  }

  // ---------------------------------------------------------------------------
  // Concrete inputs
  // ---------------------------------------------------------------------------

  /** `String` and `Bool` on inputs taken from the library's unit tests. */
  lemma StringExamples()
    ensures String("hello").run("hello world") == Some(("hello", " world"))
    ensures String("hello").run("world hello") == None
  {
    StringRuns("hello", "hello world");
    StringRuns("hello", "world hello");
  }

  /** `Bool` on the three inputs of its unit tests. */
  lemma BoolExamples()
    ensures Bool().run("true") == Some((true, ""))
    ensures Bool().run("false") == Some((false, ""))
    ensures Bool().run("hello") == None
  {
    BoolRuns("true");
    BoolRuns("false");
    BoolRuns("hello");
  }

}
