# Parser combinators, integer linear algebra and list utilities

This project models the utility core of a TypeScript Advent-of-Code framework
and proves properties of it in Dafny. The core has three parts:

- **Parser combinators** (`utils/parsers.ts`), in the style of Haskell's Parsec.
  - A parser maps an input string to failure or to a value together with the
    unconsumed rest of the input.
  - The combinators are `map`, `andThen`, `or`, `followedBy` and `preceding`.
  - The primitives are `item`, `pure`/`succeed`, `fail`, `satisfy`,
    `character`, `string`, `newline`, `endOfInput` and `endOfLine`.
  - Repetition is `many` and `some`.
  - The value parsers are `whitespace`, `digit`, `naturalNumber`, `int` and
    `bool`.
- **Integer vectors and matrices** (`utils/linear-algebra.ts`).
  - Vector operations: addition, scaling and the dot product.
  - Conversions: a vector to a row matrix or a column matrix.
  - Matrix operations: identity, rows, columns, transpose, addition, scaling,
    multiplication, and the determinant by cofactor expansion along the first
    row.
- **List utilities** (`utils/utils.ts`): `sum`, `product`, `transpose`, `zip`,
  `zipWith`, `count`, `fold`, `distinct` and `gcd`.

Layout:

- `options.dfy` defines `Option`.
- `lists.dfy` (module `Lists`) models `utils.ts`.
- `parsers.dfy` (module `Parsers`) defines the parsers. Most parsers have a
  lemma `…Runs` (some of them in `parser_laws.dfy`) that states the parser's
  result on an arbitrary input. The list at the end of "## Left out" names the
  lemma for each parser.
- `parser_laws.dfy` (module `ParserLaws`) proves the algebraic laws of the
  combinators. It also proves the fixpoint equation by which the source defines
  `many`, and the invariant that every parser leaves a suffix of its input.
- `vectors.dfy` (module `Vectors`) and `matrices.dfy` (module `Matrices`) model
  `linear-algebra.ts`.

Modelling choices:

- A parser is a datatype around a total function `string -> Option<(E, string)>`.
- Characters are Dafny `char`s, where the source uses one-character strings.
  Joining a list of parsed characters is therefore the list itself.
- `endOfInput` and `endOfLine` return `null` in the source. Here they return the
  unit value `()`.
- `some` is named `Many1`, because `Some` is the constructor of `Option`.
- Numbers are unbounded integers.
- The source gives vectors and matrices fixed sizes through tuple types. Here
  that guarantee is an explicit precondition: `Rectangular`, meaning every row
  has the width of the first.
- `Matrix.identity` throws on an order below 1. Here `Identity` returns `None`.
- `determinant` returns `undefined` for a matrix that is not square, and also
  for the square matrices of order 0 and 1. Here `Determinant` returns `None` in
  exactly those cases. `SquareDeterminant` is the corrected version listed under
  "## Findings".

## Model

| member | source | states |
|---|---|---|
| Parsers.Parse | utils/parsers.ts:17-23 | `parse` fails exactly when the parser fails, and otherwise yields the parsed value without the remaining input |
| ParserLaws.MapRuns | utils/parsers.ts:39-47 | `map` fails exactly when the parser fails; on success it applies the mapper to the value and leaves the same remaining input |
| ParserLaws.MapIdentity | utils/parsers.ts:39-47 | mapping the identity function gives a parser equivalent to the original on every input (functor identity law) |
| ParserLaws.MapFusion | utils/parsers.ts:39-47 | mapping `f` then `g` is equivalent to mapping their composition (functor composition law) |
| ParserLaws.MapIsAndThenPure | utils/parsers.ts:39-62 | `map(f)` is equivalent to `andThen` followed by `pure` of `f` of the value |
| ParserLaws.AndThenRuns | utils/parsers.ts:54-62 | `andThen` fails when the first parser fails; otherwise it runs the continuation chosen by the value on the remaining input |
| ParserLaws.AndThenLeftIdentity | utils/parsers.ts:54-62 | `pure(x).andThen(f)` is equivalent to `f(x)` (monad left identity) |
| ParserLaws.AndThenRightIdentity | utils/parsers.ts:54-62 | `p.andThen(pure)` is equivalent to `p` (monad right identity) |
| ParserLaws.AndThenAssociative | utils/parsers.ts:54-62 | chaining `andThen` is associative (monad associativity) |
| ParserLaws.AndThenLeftZero | utils/parsers.ts:54-62 | `fail().andThen(f)` fails on every input |
| ParserLaws.OrRuns | utils/parsers.ts:69-77 | `or` returns the first parser's success unchanged, and otherwise the second parser's result on the same input; it fails iff both fail |
| ParserLaws.OrFailIdentity | utils/parsers.ts:69-77 | `fail` is a left and right identity of `or` |
| ParserLaws.OrAssociative | utils/parsers.ts:69-77 | `or` is associative |
| ParserLaws.OrAfterPure | utils/parsers.ts:69-77 | `pure(x).or(q)` is equivalent to `pure(x)`: the alternative is never tried |
| Parsers.FollowedByRuns | utils/parsers.ts:84-86 | `followedBy` succeeds iff both parsers succeed in sequence, with the first parser's value and the input left by the second |
| Parsers.PrecedingRuns | utils/parsers.ts:93-95 | `preceding` succeeds iff both parsers succeed in sequence, and then yields the second parser's result |
| ParserLaws.ItemSplitsInput | utils/parsers.ts:102-107 | `item` fails iff the input is empty; on success the value followed by the rest is the input |
| Parsers.ManyRun | utils/parsers.ts:114-116 | repetition never fails; its values are consecutive successes of the parser from the input, and it ends where the parser fails or succeeds without shortening the input |
| Parsers.ManyMaximal | utils/parsers.ts:114-116 | for a consuming parser, the parser fails on the input that `many` leaves |
| Parsers.ManyUnique | utils/parsers.ts:114-116 | any run of successes ending where a consuming parser fails is exactly the result of `many` |
| ParserLaws.ManyUnfoldsAt | utils/parsers.ts:114-116 | on an input where the parser's success consumes something, `many(p)` agrees with the source's definition `p.andThen(x => many(p).map(xs => [x, ...xs])).or(succeed([]))` |
| ParserLaws.ManyUnfolds | utils/parsers.ts:114-116 | for a consuming parser, `many(p)` is equivalent on every input to that recursive definition |
| ParserLaws.ManyNeverFails | utils/parsers.ts:114-116 | for a consuming parser, `many` always succeeds; it returns no values iff the parser fails at once, and then leaves the input untouched |
| Parsers.Many1Runs | utils/parsers.ts:123-131 | for a consuming parser, `some` fails iff the parser fails on the input, and otherwise returns what `many` returns |
| ParserLaws.PureConsumesNothing | utils/parsers.ts:138-140 | `pure(x)` always succeeds with the element `x` as its value and leaves the whole input |
| Parsers.SatisfyRuns | utils/parsers.ts:162-164 | `satisfy` takes the first character iff there is one and it passes the predicate |
| Parsers.SatisfyConsuming | utils/parsers.ts:162-164 | every success of `satisfy` consumes input, so repeating it terminates |
| Parsers.ManySatisfyRuns | utils/parsers.ts:114-116 | `many(satisfy(pred))` returns the longest prefix passing `pred` and the input after it |
| Parsers.Many1SatisfyRuns | utils/parsers.ts:123-131 | `some(satisfy(pred))` fails iff the first character does not pass, and otherwise returns the longest passing prefix |
| Parsers.CharacterRuns | utils/parsers.ts:171-173 | `character(c)` consumes the first character iff it is `c` |
| Parsers.StringRuns | utils/parsers.ts:180-185 | `string(target)` succeeds iff `target` is a prefix of the input, returning `target` and the input after it |
| ParserLaws.EndOfInputRuns | utils/parsers.ts:194 | `endOfInput` succeeds iff the input is empty, consuming nothing |
| Parsers.EndOfLineRuns | utils/parsers.ts:190-198 | `endOfLine` consumes a leading line break, succeeds without consuming on empty input, and fails otherwise |
| Parsers.WhitespaceRuns | utils/parsers.ts:202 | `whitespace` returns the longest prefix of `\s` characters; what remains is empty or starts with a non-whitespace character |
| Parsers.DigitRuns | utils/parsers.ts:207 | `digit` as written reads one character of the set "123467890" as its numeric value and fails on any other character |
| Parsers.DigitRejectsFive | utils/parsers.ts:207 | as written, `digit` fails on an input starting with '5', while the corrected digit parser reads it as 5 |
| Parsers.DecimalDigitRuns | utils/parsers.ts:207 | the corrected digit parser reads exactly '0' to '9', as values 0 to 9 |
| Parsers.DecimalDigitRange | utils/parsers.ts:211 | the character set "1234567890" is exactly the range '0' to '9' |
| Parsers.NaturalNumberRuns | utils/parsers.ts:211 | `naturalNumber` fails iff the input does not start with a decimal digit; otherwise it reads the longest digit run in base ten |
| Parsers.SignedRuns | utils/parsers.ts:215 | the shape of `int` over any parser that reads natural numbers: after a '-' the natural number is negated; a '-' with no digits after it fails |
| Parsers.IntRuns | utils/parsers.ts:215 | `int` reads an optionally negated natural number; a lone '-' and a non-digit start both fail |
| Parsers.BoolRuns | utils/parsers.ts:224 | `bool` returns true after a leading "true", false after a leading "false", and fails otherwise |
| ParserLaws.ItemKeepsSuffix | utils/parsers.ts:102-107 | what `item` leaves is a suffix of its input |
| ParserLaws.PureKeepsSuffix | utils/parsers.ts:138-140 | what `pure` leaves is a suffix of its input |
| ParserLaws.MapKeepsSuffix | utils/parsers.ts:39-47 | `map` preserves the property of leaving a suffix of the input |
| ParserLaws.AndThenKeepsSuffix | utils/parsers.ts:54-62 | `andThen` of suffix-keeping parsers keeps a suffix |
| ParserLaws.OrKeepsSuffix | utils/parsers.ts:69-77 | `or` of suffix-keeping parsers keeps a suffix |
| ParserLaws.RepeatsKeepsSuffix | utils/parsers.ts:114-116 | any run of successes of a suffix-keeping parser ends at a suffix of where it started |
| ParserLaws.ManyKeepsSuffix | utils/parsers.ts:114-116 | `many` of a suffix-keeping parser keeps a suffix |
| ParserLaws.Many1KeepsSuffix | utils/parsers.ts:123-131 | `some` of a suffix-keeping parser keeps a suffix |
| ParserLaws.EndOfLineKeepsSuffix | utils/parsers.ts:198 | `endOfLine` leaves a suffix of its input |
| ParserLaws.WhitespaceKeepsSuffix | utils/parsers.ts:202 | `whitespace` leaves a suffix of its input |
| ParserLaws.ReadNaturalKeepsSuffix | utils/parsers.ts:211 | reading a natural number leaves a suffix of the input |
| ParserLaws.NaturalNumberKeepsSuffix | utils/parsers.ts:211 | `naturalNumber` leaves a suffix of its input |
| ParserLaws.IntKeepsSuffix | utils/parsers.ts:215 | `int` leaves a suffix of its input |
| ParserLaws.BoolKeepsSuffix | utils/parsers.ts:224 | `bool` leaves a suffix of its input |
| ParserLaws.StringExamples | utils/parsers.spec.ts:319-329 | `string('hello')` yields "hello" and " world" on "hello world", and fails on "world hello" |
| ParserLaws.BoolExamples | utils/parsers.spec.ts:428-439 | `bool` yields true on "true" and false on "false", leaving nothing, and fails on "hello" |
| Vectors.Components | utils/linear-algebra.ts:23-25 | the components list has the vector's order and rebuilds the same vector |
| Vectors.Plus | utils/linear-algebra.ts:40-42 | the sum is as long as the shorter vector, and each component is the sum of the corresponding components |
| Vectors.Scale | utils/linear-algebra.ts:49-51 | scaling keeps the order and multiplies every component by the scalar |
| Vectors.PlusCommutes | utils/linear-algebra.ts:40-42 | vector addition is commutative |
| Vectors.DotProductCons | utils/linear-algebra.ts:58-60 | the dot product is 0 when either vector is empty, and otherwise is the product of the first components plus the dot product of the rest |
| Vectors.DotProductCommutes | utils/linear-algebra.ts:58-60 | the dot product is symmetric |
| Vectors.DotProductScale | utils/linear-algebra.ts:49-60 | scaling one argument by `c` multiplies the dot product by `c` |
| Vectors.DotProductPlus | utils/linear-algebra.ts:40-60 | for vectors of one order, the dot product distributes over vector addition |
| Vectors.DotProductUnit | utils/linear-algebra.ts:58-60 | the dot product with the j-th unit vector, on either side, is the j-th component |
| Matrices.Entries | utils/linear-algebra.ts:145 | the entry lists have one list per row, equal to that row's components |
| Matrices.FromEntries | utils/linear-algebra.ts:148 | building a matrix from entry lists gives one row per list and is undone by `Entries` |
| Matrices.AsRowMatrix | utils/linear-algebra.ts:75-77 | a vector as a row matrix is 1 × order, rectangular, and its single row is the vector |
| Matrices.AsColumnMatrix | utils/linear-algebra.ts:83-85 | a vector as a column matrix has one row per component, each holding that component; the width is 1, or 0 for the empty vector |
| Matrices.Identity | utils/linear-algebra.ts:109-122 | the identity is absent iff the order is below 1; otherwise it is order × order with 1 exactly on the diagonal |
| Matrices.GetRows | utils/linear-algebra.ts:128-130 | the rows list has one vector per row and rebuilds the same matrix |
| Matrices.Transpose | utils/linear-algebra.ts:144-149 | the transpose is rectangular with rows and columns swapped, and entry (i, j) is entry (j, i) of the original |
| Matrices.GetColumns | utils/linear-algebra.ts:136-138 | there is one column per unit of width, and the j-th is column j of the matrix |
| Matrices.TransposeInvolution | utils/linear-algebra.ts:144-149 | transposing twice gives back a rectangular matrix of non-zero width |
| Matrices.TransposeSwapsRowsAndColumns | utils/linear-algebra.ts:136-149 | the rows of the transpose are the columns of the matrix, and the columns of the transpose are its rows |
| Matrices.Plus | utils/linear-algebra.ts:156-158 | the sum has as many rows as the shorter matrix, each the vector sum of the corresponding rows |
| Matrices.PlusEntries | utils/linear-algebra.ts:156-158 | for matrices of one shape the sum has that shape, and each entry is the sum of the corresponding entries |
| Matrices.PlusCommutes | utils/linear-algebra.ts:156-158 | matrix addition is commutative |
| Matrices.Scale | utils/linear-algebra.ts:165-167 | scaling keeps the height and scales each row |
| Matrices.ScaleEntries | utils/linear-algebra.ts:165-167 | scaling keeps the shape and multiplies every entry by the scalar |
| Matrices.Times | utils/linear-algebra.ts:174-185 | the product is rectangular, with the first matrix's height and the second's width, and entry (i, j) is the dot product of row i with column j |
| Matrices.TimesIdentityRight | utils/linear-algebra.ts:174-185 | multiplying by the identity of the matrix's width on the right gives back the matrix |
| Matrices.TimesIdentityLeft | utils/linear-algebra.ts:174-185 | multiplying by the identity of the matrix's height on the left gives back the matrix |
| Matrices.RowTimesColumn | utils/linear-algebra.ts:174-185 | a row matrix times a column matrix of one order is the 1 × 1 matrix holding their dot product |
| Matrices.Minor | utils/linear-algebra.ts:202-205 | the minor drops the first row and column i; it is square, one smaller, with the remaining entries in place |
| Matrices.Determinant | utils/linear-algebra.ts:191-212 | the determinant is absent iff the matrix is not square or is smaller than 2 × 2; for 2 × 2 it is ad − cb |
| Matrices.DetTwoByTwoIsExpansion | utils/linear-algebra.ts:196-208 | the source's 2 × 2 closed form agrees with the general cofactor expansion along the first row |
| Matrices.DetIdentity | utils/linear-algebra.ts:196-209 | the determinant of the n × n identity entries is 1 for every n ≥ 2 |
| Matrices.DeterminantIdentity | utils/linear-algebra.ts:191-212 | `determinant` of the identity matrix of any order n ≥ 2 is 1 |
| Matrices.SquareDeterminant | utils/linear-algebra.ts:187-212 | the corrected determinant has a value exactly for square matrices: 1 for order 0, the single entry for order 1, and the same value as `determinant` from order 2 on |
| Matrices.SquareDeterminantIdentity | utils/linear-algebra.ts:187-212 | the corrected determinant of the identity of every order n ≥ 1 is 1; `determinant` as written has no value for the identity of order 1 |
| Matrices.DeterminantMissesOneByOne | utils/linear-algebra.ts:191-194 | a 1 × 1 matrix is square, yet `determinant` as written returns nothing for it, while the corrected determinant returns its entry |
| Matrices.DetFirstRowLeading | utils/linear-algebra.ts:200-208 | when the first row is zero after its first entry, the expansion reduces to that entry times the determinant of the matrix without the first row and column |
| Matrices.DetLowerTriangular | utils/linear-algebra.ts:196-209 | the determinant of a square matrix of order ≥ 2 with zeros above the diagonal is the `product` of its diagonal; this generalises the identity case |
| Matrices.DetZeroFirstRow | utils/linear-algebra.ts:196-209 | a square matrix whose first row is all zeros has determinant 0 |
| Lists.FoldSnoc | utils/utils.ts:97-103 | folding a list extended by one element applies the reducer once more to the fold of the prefix |
| Lists.FoldAppend | utils/utils.ts:97-103 | folding a concatenation folds the second part starting from the fold of the first |
| Lists.FoldAddFrom | utils/utils.ts:6-8 | reducing with `x + acc` from any accumulator gives the accumulator plus `sum` of the list, so `sum` is the fold from any start shifted by that start |
| Lists.FoldMultiplyFrom | utils/utils.ts:15-17 | reducing with `x * acc` from any accumulator gives the accumulator times `product` of the list |
| Lists.SumCons | utils/utils.ts:6-8 | the sum of the empty list is 0, and the sum of x followed by a list is x plus the sum of the list |
| Lists.ProductCons | utils/utils.ts:15-17 | the product of the empty list is 1, and the product of x followed by a list is x times the product of the list |
| Lists.SumAppend | utils/utils.ts:6-8 | the sum of a concatenation is the sum of the sums |
| Lists.ProductAppend | utils/utils.ts:15-17 | the product of a concatenation is the product of the products |
| Lists.SumSingleTerm | utils/utils.ts:6-8 | a list that is zero everywhere except at position j sums to its entry at j |
| Lists.SumZero | utils/utils.ts:6-8 | a list of zeros sums to 0 |
| Lists.Transpose | utils/utils.ts:26-39 | the transpose of no rows is empty; otherwise it has one row per element of the first row and one column per row, and r[i][x] = xss[x][i] |
| Lists.TransposeInvolution | utils/utils.ts:26-39 | transposing a rectangular list with non-empty rows twice gives it back |
| Lists.TransposeOfEmptyRows | utils/utils.ts:26-39 | when the first row is empty the transpose is empty, so transposing twice loses the rows |
| Lists.Zip | utils/utils.ts:49-55 | the result is as long as the shorter list, and pair i holds the elements at position i |
| Lists.ZipWith | utils/utils.ts:66-72 | the result is as long as the shorter list, and element i is f applied to the elements at position i |
| Lists.ZipWithIsZipThenApply | utils/utils.ts:49-72 | `zipWith(xs, ys, f)` is `zip(xs, ys)` with f applied to each pair |
| Lists.ZipWithCommutes | utils/utils.ts:66-72 | with a symmetric function, swapping the lists leaves `zipWith` unchanged |
| Lists.Count | utils/utils.ts:80-88 | the count is the number of positions whose element satisfies the predicate, at most the length |
| Lists.Distinct | utils/utils.ts:110-112 | the result has no duplicates, holds exactly the elements of the input, and keeps them in order of first occurrence |
| Lists.Gcd | utils/utils.ts:120-125 | the result divides both arguments, and every common divisor divides it: it is the greatest common divisor |
| Lists.GcdStep | utils/utils.ts:120-125 | a common divisor of x and y > 0 also divides x % y, which is why the recursion keeps the common divisors |

## Left out

- `double` (utils/parsers.ts:219): it builds a floating-point number from text, and Dafny has no floating point here.
- `Vector.magnitude` and `Vector.angleBetween`: they use `Math.sqrt` and `Math.acos` on floating-point numbers.
- The day programs (`day-*/main.ts`): they do file I/O and drive the library.
- JavaScript numbers are doubles. Integers here are unbounded, so precision loss above 2^53, `-0` and `NaN` are not modelled.
- Lists.Gcd: restricted to natural numbers. The source's `%` truncates toward zero, so negative or fractional arguments behave differently and are not modelled.
- Parsers.ManyRun: it stops when the parser succeeds without shortening the input. On such a parser the source's `many` recurses forever (a stack overflow), or keeps going when the parser lengthens its input. The laws about `many` assume a parser whose every success shortens the input.
- Parsers.Parse: it returns `None` only on failure. The source's `parse` also returns `null` when a successful parse yields `null` (as `endOfInput` and `endOfLine` do), so there the two cases cannot be told apart.
- Characters are UTF-16 code units in the source and `char`s here. `IsWhitespace` lists the code points that ECMAScript's `\s` matches.
- Lists.Transpose: requires every row to be at least as long as the first. The source also accepts shorter rows and fills the missing positions with `undefined` (utils/utils.ts:34). Its only caller among the modelled files, `Matrix.transpose` (utils/linear-algebra.ts:146), passes rectangular rows. Ragged input from any other caller is not modelled.
- The tuple types that fix vector and matrix sizes are replaced by the `Rectangular` precondition. Ragged matrices are not modelled.
- Lists.Distinct: compares elements with Dafny's equality, which compares lists and records by value. JavaScript's `Set` compares arrays and objects by reference, so `distinct([[1], [1]])` keeps both arrays in the source but only one list here. For numbers and strings the two agree, apart from `NaN` and `-0`.
- Matrices.Determinant: from order 3 on, its contract gives no value. The value is `Det` of the entries, and `Det` is the cofactor expansion by definition. The `Det…` lemmas describe that value: `DetIdentity`, `DetZeroFirstRow`, `DetFirstRowLeading` and `DetLowerTriangular`.
- Several members model a source function but carry no contract of their own. Their behaviour is stated by the lemmas named next to them, which appear in the table above:
  - `Parsers.Map` (utils/parsers.ts:39-47): `ParserLaws.MapRuns`.
  - `Parsers.AndThen` (54-62): `ParserLaws.AndThenRuns`.
  - `Parsers.Or` (69-77): `ParserLaws.OrRuns`.
  - `Parsers.FollowedBy` (84-86): `Parsers.FollowedByRuns`.
  - `Parsers.Preceding` (93-95): `Parsers.PrecedingRuns`.
  - `Parsers.Item` (102-107): `ParserLaws.ItemSplitsInput`.
  - `Parsers.Many` (114-116): `Parsers.ManyRun` and `ParserLaws.ManyUnfolds`.
  - `Parsers.Many1` (123-131): `Parsers.Many1Runs`.
  - `Parsers.Pure` (138-147): `ParserLaws.PureConsumesNothing`.
  - `Parsers.Fail` (153-155): `ParserLaws.AndThenLeftZero` and `ParserLaws.OrFailIdentity`.
  - `Parsers.Satisfy` (162-164): `Parsers.SatisfyRuns`.
  - `Parsers.Character` (171-173): `Parsers.CharacterRuns`.
  - `Parsers.String` (180-185): `Parsers.StringRuns`.
  - `Parsers.Newline` (190): `Parsers.CharacterRuns` with the line break.
  - `Parsers.EndOfInput` (194): `ParserLaws.EndOfInputRuns`.
  - `Parsers.EndOfLine` (198): `Parsers.EndOfLineRuns`.
  - `Parsers.Whitespace` (202): `Parsers.WhitespaceRuns`.
  - `Parsers.Digit` (207): `Parsers.DigitRuns`.
  - `Parsers.NaturalNumber` (211): `Parsers.NaturalNumberRuns`.
  - `Parsers.Int` (215): `Parsers.IntRuns`.
  - `Parsers.Bool` (224): `Parsers.BoolRuns`.
  - `Vectors.DotProduct` (utils/linear-algebra.ts:58-60): `Vectors.DotProductCons` and the other `DotProduct…` lemmas.
  - `Vectors.Order` (utils/linear-algebra.ts:12-16): the contracts of `Vectors.Components`, `Vectors.Plus`, `Vectors.Scale` and `Vectors.Unit`.
  - `Matrices.Height` and `Matrices.Width` (utils/linear-algebra.ts:98-102): the contracts of `Matrices.AsRowMatrix`, `Matrices.Identity`, `Matrices.Transpose` and `Matrices.Times`.
  - `Matrices.Det` (utils/linear-algebra.ts:196-209): `Matrices.DetTwoByTwoIsExpansion`, `Matrices.DetIdentity`, `Matrices.DetZeroFirstRow`, `Matrices.DetFirstRowLeading` and `Matrices.DetLowerTriangular`.
  - `Matrices.CofactorTerms` (utils/linear-algebra.ts:206, the summand of the expansion): a helper of `Det`, whose lemmas above state what the expansion computes.
  - `Lists.Fold` (utils/utils.ts:97-103): `Lists.FoldSnoc` and `Lists.FoldAppend`.
  - `Lists.Sum` (utils/utils.ts:6-8): `Lists.FoldAddFrom`, `Lists.SumCons` and `Lists.SumAppend`.
  - `Lists.Product` (utils/utils.ts:15-17): `Lists.FoldMultiplyFrom`, `Lists.ProductCons` and `Lists.ProductAppend`.
- Concrete inputs are covered only for `string` and `bool`. The general lemmas cover every input.

## Findings

| source | as written | input that shows it | evidently intended | confidence | as-written member | corrected member |
|---|---|---|---|---|---|---|
| utils/parsers.ts:207 | `digit` accepts the characters of "123467890", which lacks '5' | "5": `digit` fails, though `naturalNumber` reads "5" as 5 | accept all ten digits "0123456789" | high, not executed | Parsers.DigitRejectsFive | Parsers.DecimalDigitRuns |
| utils/linear-algebra.ts:187-194 | `determinant` returns `undefined` when the height is below 2, so the square matrices of order 0 and 1 get no determinant, although the comment above it promises one for every square matrix | a 1 × 1 matrix `[[a]]`, such as the identity of order 1: the result is `undefined` | a determinant for every square matrix: `a` for `[[a]]`, 1 for the empty matrix | medium, not executed | Matrices.DeterminantMissesOneByOne | Matrices.SquareDeterminant |
