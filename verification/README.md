# pbrt scene-file parser, modelled in Dafny

This project models the scene-file parser of the pbrt renderer,
`src/core/parser.rs`. The parser works in two stages:

- **Comment stripper.** `strip_comment` replaces every `#` … line feed
  comment with a single line feed.
- **Recognizers.** nom 3 recognizers then read the option directives that
  come before the world block: `LookAt`, `Camera`, `Sampler`, `Integrator`
  and `Film`.

The named directives take a parameter list of items of the form
`"type name" values`. The value list is either bracketed `[ v v … ]` or
bare, of bools, numbers, 64-bit integers or quoted strings.

Every recognizer is a pure function from the input bytes to a result and the
unconsumed rest:

- `Parse` is `Done(value, rest)` or `Fail`.
- `Outcome` adds `Unhandled(tag)` for the abort the source raises on an
  unknown parameter type tag. That outcome is never backtracked over, and it
  propagates out of every recognizer above the abort.

Each recognizer has a partner, and a lemma connects the two over all inputs:

- **Written forms.** Each recognizer has a written form (`Render`,
  `IntegerText`, `Text`, `ItemText`, `DirectiveText` …) that it reads back
  exactly when what follows cannot extend the last token:
  - a boolean, a quoted name and an item header are read back whatever
    follows;
  - a number is read back when no digit, exponent or point could continue
    it (`Literals.Continues`), and an integer when no digit follows;
  - a value list or item is read back when a delimiter follows, then
    nothing, a quote or an upper-case letter (`Values.Follows`);
  - an item list or directive is read back when a delimiter follows, then
    nothing or an upper-case letter (`Params.Ends`).
- **Comment stripper.** It is related to a line-by-line description (`Kept`),
  to line-feed counting and to idempotence.

The modules follow the structure of the source:

| module | file | models |
|---|---|---|
| `Parsing` | parsing.dfy | nom's combinators as the parser uses them: `digit`/`alphanumeric`/`space`, `ws!`, `many1!`, `alt!`, the bracketed and bare list forms |
| `Utf8` | utf8.dfy | well-formed UTF-8 (Table 3-7 of the Unicode Standard), needed by `str::from_utf8` and by the regex's `.` |
| `Comments` | comments.dfy | `strip_comment` |
| `Literals` | literals.dfy | `bool`, `number`, `integer`, `quoted_name`, `ascii` |
| `Values` | values.dfy | `param_set_item_values_*` and `param_set_item_values` |
| `Params` | params.dfy | `param_set_item`, `param_set`, `param_set_from_vec` |
| `Options` | options.dfy | `OptionsBlock`, `look_at`, `camera`, `sampler`, `integrator`, `film` |

Two behaviours of the code are easy to miss, and the model follows them:

- **`integer` and a decimal point.** `integer` reads the sign and the digits
  in front of a decimal point and leaves the point unconsumed, so `1.5`
  gives 1 with `.5` left over (`Literals.IntegerRoundTrip` with the rest
  `.5`).
- **Quoted strings and UTF-8.** `ascii` passes the bytes before the closing
  quote through `str::from_utf8`, so it rejects quoted content that is not
  well-formed UTF-8 (`Literals.AsciiRoundTrip`). Similarly, the regex
  `#.*\n` matches a comment only when the comment's bytes are well-formed
  UTF-8.

## Model

| member | source | states |
|---|---|---|
| Parsing.Span | src/core/parser.rs:145-147 | `alphanumeric`/`space`/`digit` succeed exactly when the first byte is in the class, and return the maximal nonempty run of the class with the rest after it |
| Parsing.SpanOf | src/core/parser.rs:145-147 | a maximal run followed by a byte outside the class is exactly what the run recognizer returns |
| Parsing.SkipWs | src/core/parser.rs:179 | `ws!` leaves input that starts with no whitespace byte, and never lengthens it |
| Parsing.SkipWsSplits | src/core/parser.rs:179 | what `ws!` skips is a whitespace prefix, and what it keeps is the rest of the input |
| Parsing.SkipWsOver | src/core/parser.rs:179 | any whitespace in front of the input is skipped entirely |
| Parsing.SkipWsTwice | src/core/parser.rs:179 | skipping whitespace is idempotent |
| Parsing.IndexOf | src/core/parser.rs:104 | `take_until!` finds the first occurrence of the byte: the byte is there and not before it, or it is nowhere |
| Parsing.IndexOfAt | src/core/parser.rs:104 | an occurrence with none before it is the one found |
| Parsing.Many1 | src/core/parser.rs:71-72 | `many1!` yields at least one element |
| Parsing.More | src/core/parser.rs:71-72 | the `many1!` loop under `ws!`, which stops at the first element that fails or consumes nothing, never lengthens the input; what it reads is fixed by `Parsing.MoreConcat` and `Values.MoreElements` |
| Parsing.Run | src/core/parser.rs:72 | the bare form `ws!(many1!(p))` yields at least one element |
| Parsing.Bracketed | src/core/parser.rs:71 | the bracketed form yields at least one element |
| Parsing.Single | src/core/parser.rs:121-122 | a bare single element becomes a one-element list |
| Parsing.Alt | src/core/parser.rs:70-73 | `alt!` succeeds iff one alternative does; a successful first alternative wins, and otherwise the result is exactly the second alternative's |
| Parsing.ListOf | src/core/parser.rs:70-73 | the bracket-or-bare list yields at least one element |
| Parsing.Lift | src/core/parser.rs:129-132 | a list result that cannot abort succeeds exactly when the list parse does, with the same value and rest, and never aborts |
| Parsing.Many1Shrinks | src/core/parser.rs:71-72 | a run of consuming elements consumes input |
| Parsing.ListsShrink | src/core/parser.rs:70-73 | the bracket-or-bare and bracket-or-single lists of a consuming element consume input |
| Parsing.ListsSkipWs | src/core/parser.rs:70-73 | whitespace in front of a list of either form does not change the result |
| Parsing.ParsesAsSpaced | src/core/parser.rs:71-72 | an element read back from its text is still read back after a leading space |
| Parsing.SpacedParses | src/core/parser.rs:71-72 | element texts joined with single spaces stay separated and each is read back as its element |
| Parsing.MoreConcat | src/core/parser.rs:71-72 | the `many1!` loop reads back every separated element text, in order, and stops at the delimiter |
| Parsing.Many1Concat | src/core/parser.rs:71-72 | `many1!` reads back a nonempty run of separated element texts as exactly their list |
| Parsing.BracketedConcat | src/core/parser.rs:71 | `[ e1 e2 … ]` reads back its listed elements and skips whitespace after `]` |
| Parsing.ListOfBracketed | src/core/parser.rs:70-73 | a bracketed list is what the bracket-or-bare recognizer returns |
| Parsing.BracketedRejectsBare | src/core/parser.rs:70-73 | a bare run is never taken for a bracketed list |
| Parsing.RunConcat | src/core/parser.rs:72 | the bare form `e1 e2 …` reads back its elements when a delimiter that starts no element follows |
| Parsing.SingleOf | src/core/parser.rs:121 | a single bare element is read back as a one-element list |
| Parsing.EmptyBracketFails | src/core/parser.rs:70-73 | `[ ]` with nothing inside is neither a bracketed list nor a bare run or element |
| Utf8.Leading | src/core/parser.rs:105 | the length of the leading well-formed code unit sequence is at most four and within the input |
| Utf8.LeadingPrefix | src/core/parser.rs:105 | the first sequence is decided by its own bytes, whatever follows |
| Utf8.ValidConcat | src/core/parser.rs:105 | well-formed UTF-8 is closed under concatenation |
| Utf8.AsciiValid | src/core/parser.rs:105 | bytes below 0x80 are well-formed UTF-8 |
| Comments.CommentAt | src/core/parser.rs:61 | a comment found at the front is one match of `#.*\n`: a `#`, well-formed non-line-feed bytes, a line feed |
| Comments.CommentAtFinds | src/core/parser.rs:61 | every match at the front is the one found, so no match is missed |
| Comments.Step | src/core/parser.rs:62 | the scan consumes a whole comment or one byte, never nothing and never past the end |
| Comments.Strip | src/core/parser.rs:62 | the stripped buffer is never longer than the input |
| Comments.StripComment | src/core/parser.rs:59-65 | the forward scan over the buffer computes the left-to-right non-overlapping replacement of every comment |
| Comments.StripWithoutHash | src/core/parser.rs:286-288 | text without `#` is unchanged |
| Comments.StripWithoutLineFeed | src/core/parser.rs:61 | a `#` with no line feed after it starts no comment, so text without a line feed is unchanged |
| Comments.StripKeepsPrefix | src/core/parser.rs:62 | text before the first `#` is kept in order |
| Comments.StripCons | src/core/parser.rs:62 | a byte other than `#` is copied through, in order |
| Comments.CommentLine | src/core/parser.rs:61 | `#`, bytes without a line feed, and a line feed is a comment exactly when those bytes are well-formed UTF-8 |
| Comments.StripComment1 | src/core/parser.rs:62 | a comment with its line feed becomes exactly one line feed |
| Comments.StripReplaces | src/core/parser.rs:62 | where a comment starts, it becomes one line feed and the scan goes on after it |
| Comments.StripKeeps | src/core/parser.rs:62 | where no comment starts, the byte is kept and the scan goes on after it |
| Comments.StripKeepsLineFeeds | src/core/parser.rs:61-62 | the number of line feeds is unchanged, so line numbers survive stripping |
| Comments.StepLineFeeds | src/core/parser.rs:61-62 | one step writes a line feed exactly when it consumes one |
| Comments.CommentLineFeeds | src/core/parser.rs:61 | a comment holds exactly one line feed |
| Comments.KeptShape | src/core/parser.rs:61 | what a line keeps is a prefix of it: the whole line, or the part before a `#` that starts a well-formed comment |
| Comments.StripFirstLine | src/core/parser.rs:276-293 | stripping works line by line: the first line loses its comment and keeps its line feed |
| Comments.FirstLineComment | src/core/parser.rs:61-62 | a line that is all comment becomes its line feed |
| Comments.LineKeepsHead | src/core/parser.rs:62 | the first byte of a line that does not open a comment is kept |
| Comments.StripKeepsNonComment | src/core/parser.rs:61 | a `#` that starts no comment still starts none after the text behind it is stripped |
| Comments.KeptInvalid | src/core/parser.rs:61 | what a line keeps has no line feed, and is ill-formed only when the line is |
| Comments.GlueValid | src/core/parser.rs:61 | a well-formed start, `#` and a well-formed rest make a well-formed line |
| Comments.StripIdempotent | src/core/parser.rs:59-65 | stripping leaves no comment behind: a second pass changes nothing |
| Literals.Boolean | src/core/parser.rs:23-29 | `bool` succeeds exactly on input starting with `true` or `false`, and consumes that keyword |
| Literals.BooleanRoundTrip | src/core/parser.rs:23-29 | `true` and `false` are read back as their booleans, whatever follows |
| Literals.ScanSign | src/core/parser.rs:36 | the optional sign is taken apart from the rest of the input |
| Literals.ScanSignOf | src/core/parser.rs:36 | a written sign is read back |
| Literals.LeadingDigits | src/core/parser.rs:38 | `opt!(digit)` splits off the maximal, possibly empty, run of digits |
| Literals.PointFraction | src/core/parser.rs:38 | the first alternative reads the forms `d.d` and `.d`, with at least one fraction digit |
| Literals.DigitsPoint | src/core/parser.rs:39 | the second alternative reads the form `d.` |
| Literals.DigitsOnly | src/core/parser.rs:39 | the third alternative reads the form `d` |
| Literals.ScanMantissa | src/core/parser.rs:37-40 | the mantissa is one of the four forms, and because of the order of the alternatives `d.` never stops before a digit and `d` never stops before a point |
| Literals.FractionFirst | src/core/parser.rs:37-40 | `d.` followed by a digit is taken by the first alternative |
| Literals.PointSecond | src/core/parser.rs:37-40 | `d` followed by a point is taken by an earlier alternative |
| Literals.ScanExponent | src/core/parser.rs:41-45 | the optional exponent is `e`/`E`, an optional sign and at least one digit; otherwise nothing is consumed |
| Literals.ScanNumber | src/core/parser.rs:32-49 | `number` recognizes a well-formed lexeme that no following byte could have extended |
| Literals.Number | src/core/parser.rs:32-49 | a recognized number consumes input |
| Literals.ScanNumberOf | src/core/parser.rs:32-49 | every well-formed lexeme is recognized exactly when what follows cannot continue it |
| Literals.ScanMantissaOf | src/core/parser.rs:37-40 | every mantissa form is read back by the ordered alternatives |
| Literals.PointFractionOf | src/core/parser.rs:38 | `d.d` and `.d` are read back by the first alternative |
| Literals.DigitsPointOf | src/core/parser.rs:38-39 | `d.` fails the first alternative and is read back by the second |
| Literals.DigitsOnlyOf | src/core/parser.rs:38-39 | `d` fails the first two alternatives and is read back by the third |
| Literals.ScanExponentOf | src/core/parser.rs:41-45 | a written exponent, or its absence, is read back |
| Literals.NumberRoundTrip | src/core/parser.rs:296-302 | a written number (`3.14`, `.1`, `3.`, `4`, with sign and exponent) is read back as its exact value |
| Literals.DelimitsNumber | src/core/parser.rs:82-83 | a list delimiter never continues a number |
| Literals.LonePoint | src/core/parser.rs:37-40 | a point with no digit on either side is no number, signed or not |
| Literals.NoMantissa | src/core/parser.rs:37-40 | none of the three mantissa alternatives accepts a point with no digits |
| Literals.SignedValue | src/core/parser.rs:351-355 | a `-` sign negates the number's value and a `+` sign leaves it unchanged |
| Literals.ScaleNegates | src/core/parser.rs:47 | negating the mantissa negates the scaled value |
| Literals.ScanInteger | src/core/parser.rs:54 | `integer` recognizes an optional sign and the maximal nonempty run of digits |
| Literals.Integer | src/core/parser.rs:51-57 | an integer is in the 64-bit range and consumes input |
| Literals.ScanIntegerOf | src/core/parser.rs:54 | a written sign and digit run is recognized exactly |
| Literals.IntegerRoundTrip | src/core/parser.rs:51-57 | a signed digit run is read as its value when it fits in 64 bits and rejected otherwise; what follows the digits, such as `.5`, is left |
| Literals.DigitChar | src/core/parser.rs:54 | the digit written for a value below ten has that value |
| Literals.DigitsOf | src/core/parser.rs:54 | the decimal text of a natural number is a nonempty digit run |
| Literals.DigitsOfValue | src/core/parser.rs:55 | the decimal text of a natural number has that value |
| Literals.IntegerTextRoundTrip | src/core/parser.rs:315-330 | every 64-bit integer is read back from its decimal text |
| Literals.QuotedName | src/core/parser.rs:16-21 | `quoted_name` reads a nonempty alphanumeric name between quotes |
| Literals.QuotedNameRoundTrip | src/core/parser.rs:16-21 | a quoted alphanumeric name is read back, whatever follows |
| Literals.Ascii | src/core/parser.rs:100-109 | `ascii` reads quote-free, well-formed UTF-8 content between quotes |
| Literals.AsciiRoundTrip | src/core/parser.rs:100-109 | quoted content is read back iff it is well-formed UTF-8 |
| Literals.AsciiUnterminated | src/core/parser.rs:104 | an unterminated quote starts no string |
| Literals.ElementsRejectBrackets | src/core/parser.rs:71-72 | no element recognizer accepts a bracket |
| Literals.BracketNotElement | src/core/parser.rs:71-72 | text starting with a bracket is no bool, number, integer or string |
| Literals.NotScalar | src/core/parser.rs:23-57 | text that is empty or starts with a byte no scalar starts with (such as `e5`) is no bool, number or integer |
| Literals.ElementsConsume | src/core/parser.rs:23-109 | every success of an element recognizer consumes input |
| Literals.BooleanPiece | src/core/parser.rs:23-29 | a boolean's text is read back as it after optional whitespace and before a delimiter |
| Literals.NumberPiece | src/core/parser.rs:32-49 | a number's text is read back as its exact value after optional whitespace and before a delimiter |
| Literals.IntegerPiece | src/core/parser.rs:51-57 | an integer's text is read back as it after optional whitespace and before a delimiter |
| Literals.AsciiPiece | src/core/parser.rs:100-109 | a quoted string is read back as its content after optional whitespace and before a delimiter |
| Values.BoolValues | src/core/parser.rs:67-76 | a bool value list is a nonempty `Bool` list and consumes input |
| Values.FloatValues | src/core/parser.rs:78-87 | a float value list is a nonempty `Float` list and consumes input |
| Values.IntegerValues | src/core/parser.rs:89-98 | an integer value list is a nonempty `Int` list of 64-bit values and consumes input |
| Values.StringValues | src/core/parser.rs:111-125 | a string value list is a nonempty `String` list of quote-free, well-formed strings and consumes input |
| Values.ItemValues | src/core/parser.rs:127-138 | the tag selects exactly one of four lists; the result has that tag; any other tag aborts with the tag |
| Values.ItemValuesSkipWs | src/core/parser.rs:127-138 | whitespace before a value list does not change the result for any tag |
| Values.ListElements | src/core/parser.rs:70-73 | every element of a list is a value the element recognizer produced |
| Values.MoreElements | src/core/parser.rs:71-72 | every element of the `many1!` loop is a value the element recognizer produced |
| Values.IntegersInRange | src/core/parser.rs:89-98 | every integer in an integer list is in the 64-bit range |
| Values.StringsWellFormed | src/core/parser.rs:111-125 | every string in a string list is quote-free well-formed UTF-8 |
| Values.Meaning | src/core/parser.rs:67-125 | the value a written list denotes carries that list's type tag |
| Values.FollowsStops | src/core/parser.rs:71-72 | no bool, number or integer starts where a list may end, so `many1!` stops there |
| Values.ListRoundTrip | src/core/parser.rs:70-73 | a bracketed or bare list of element texts is read back as exactly those elements |
| Values.BoolsRoundTrip | src/core/parser.rs:398-412 | a written bool list, bracketed or bare, is read back |
| Values.FloatsRoundTrip | src/core/parser.rs:349-357 | a written float list, bracketed or bare, is read back as its exact values |
| Values.IntsRoundTrip | src/core/parser.rs:315-330 | a written integer list, bracketed or bare, is read back |
| Values.StringsRoundTrip | src/core/parser.rs:332-347 | a written bracketed string list, or one bare string, is read back |
| Values.BracketedStrings | src/core/parser.rs:117 | a bracketed list of quoted strings is read back |
| Values.StringPieces | src/core/parser.rs:100-109 | every quoted string of a readable list is read back as its content |
| Values.BracketedRejectsQuote | src/core/parser.rs:115-123 | text starting with a quote is not a bracketed list, so the bare form is tried |
| Values.ValuesRoundTrip | src/core/parser.rs:127-138 | every writable list is read back as the value it denotes by the recognizer its tag selects |
| Values.LayoutsAgree | src/core/parser.rs:70-73 | bool, float and integer lists read the same bracketed and bare |
| Values.BareStringTakesOne | src/core/parser.rs:120-123 | the bare string form takes one string, as a one-element list |
| Values.EmptyListRejected | src/core/parser.rs:67-125 | an empty bracket pair is rejected for every handled tag |
| Values.Texts | src/core/parser.rs:67-125 | a written list has one element text per element |
| Params.ScanHeader | src/core/parser.rs:144-148 | the header is a quote, an alphanumeric tag, blanks, an alphanumeric name and a quote |
| Params.HeaderRoundTrip | src/core/parser.rs:144-148 | a written header is read back, whatever follows |
| Params.Item | src/core/parser.rs:140-152 | an item carries the header's name and a value of the header's tag; an unknown tag aborts exactly when the header was read |
| Params.Items | src/core/parser.rs:154-157 | `param_set` never fails; it consumes nothing exactly when it finds no item; it stops at the end or where no item starts |
| Params.FromVec | src/core/parser.rs:196-202 | the parameter set holds one entry per item, in item order, with the item's name and values |
| Params.TagHeader | src/core/parser.rs:144-148 | the header of a writable item is well-formed |
| Params.ItemRoundTrip | src/core/parser.rs:372-412 | a written item is read back as its name and denoted value |
| Params.UnknownTag | src/core/parser.rs:133 | a header with an unhandled tag aborts the item and the whole parameter list with that tag |
| Params.ItemsEnd | src/core/parser.rs:154-157 | where no item starts, the parameter list is empty |
| Params.ItemsRoundTrip | src/core/parser.rs:155-157 | written items are read back in order as what they denote |
| Params.ItemsCons | src/core/parser.rs:156 | one item followed by a list of items is that item in front of the list |
| Params.ItemsStep | src/core/parser.rs:156 | the whitespace between items is skipped before the next item |
| Params.ItemsFollow | src/core/parser.rs:156 | what follows an item in a written list may follow a value list |
| Params.Meanings | src/core/parser.rs:156 | written items denote one parameter item each |
| Options.Keyword | src/core/parser.rs:204-254 | each directive keyword is nonempty and starts with an upper-case letter |
| Options.Numbers | src/core/parser.rs:182-190 | the numbers after `LookAt` are exactly nine when read with a count of nine |
| Options.LookAtBlock | src/core/parser.rs:176-194 | `look_at` builds a `LookAt` block and consumes input |
| Options.Exacts | src/core/parser.rs:182-190 | the value list has one value per written number |
| Options.NumbersRoundTrip | src/core/parser.rs:182-190 | written numbers are read back in order as their exact values |
| Options.NumbersFirst | src/core/parser.rs:182-190 | the first written number comes first in the list read back |
| Options.SpacedNumber | src/core/parser.rs:182 | a number after a space is read back |
| Options.NumbersLead | src/core/parser.rs:182-190 | written numbers start with a delimiter |
| Options.LookAtRoundTrip | src/core/parser.rs:177-193 | `LookAt` and nine numbers build the block of their exact values, in the order eye, look-at point, up vector |
| Options.LookAtOf | src/core/parser.rs:176-194 | `LookAt` followed by nine numbers builds the block of those numbers in order |
| Options.Directive | src/core/parser.rs:204-254 | a named directive builds the block of its kind, named with a nonempty alphanumeric name, and consumes input |
| Options.CameraDirective | src/core/parser.rs:204-215 | `camera` builds a `Camera` block |
| Options.SamplerDirective | src/core/parser.rs:217-228 | `sampler` builds a `Sampler` block |
| Options.IntegratorDirective | src/core/parser.rs:230-241 | `integrator` builds an `Integrator` block |
| Options.FilmDirective | src/core/parser.rs:243-254 | `film` builds a `Film` block |
| Options.DirectiveRoundTrip | src/core/parser.rs:489-517 | a written directive builds the block of its kind with its name and the parameter set of its items in order |
| Options.DirectiveOf | src/core/parser.rs:204-254 | keyword, quoted name and parameter list build the directive's block |
| Options.DirectiveShape | src/core/parser.rs:209-210 | after the keyword and a space, the quoted name starts the rest |
| Options.NoParameters | src/core/parser.rs:520-531 | a directive with no parameters gets an empty parameter set |

## Left out

- Floating point: `number` yields the exact decimal value of its lexeme
  (`Literals.Exact`). The conversion by `parse_to!(Float)` to the nearest
  binary float is not modelled, so `Literals.NumberRoundTrip` states exact
  values.
- Streaming input: nom's `Incomplete` results are not modelled and the input
  is treated as complete. Where nom would ask for more input, the model
  fails, or stops a `many1!`/`many0!` loop. This matters at the very end of
  a buffer. One case is a bare bool, number or integer list followed only by
  whitespace, such as `Camera "perspective" "float fov" 45` and a final line
  feed. There the source's `ws!` skips the line feed, the element recognizer
  meets empty input and returns `Incomplete`, and that result propagates
  through `many1!`, `alt!`, `many0!` and `do_parse!`. The model reads the
  directive. So do the round trips with such a rest, for example
  `Values.ValuesRoundTrip` with the rest `\n`. A bare list with nothing at
  all after its last element is read the same in both, because `many1!`
  stops on empty input. `ErrorKind` details are not modelled either: there
  is a single failure value.
- The abort on an unknown type tag is the `Unhandled` outcome. The text of
  the panic message is not modelled.
- nom's `many0!` fails when an item consumes nothing. This cannot happen,
  because every item starts with a quote (`Params.Item` consumes input).
  `Params.Items` therefore never fails.
- The regex engine is not modelled. `Comments.Strip` describes the effect of
  `replace_all` with `#.*\n`. `Comments.StripComment` returns only the
  stripped buffer. The source's result also carries an empty remainder,
  which is always empty.
- `ParamSet`, `ParamList`, `ParamSetItem` and `Value` come from
  `core::paramset`, which is not part of this model. A parameter set is the
  ordered list of the pairs added to it, with duplicate names kept.
  `Params.Add` appends.
- Bytes are Dafny characters (`Parsing.byte`). No statement depends on their
  being below 0x100.
- `dbg_dmp!` debug output, the test helper `dump`, and
  `src/core/geometry.rs` are not modelled.
- There is no world-block or scene grammar to model, since `WorldBlock` has
  no variants.
- The unit tests of `parser.rs` are not restated as lemmas about their
  literal inputs. The written forms of the round trips use single spaces
  between tokens and none inside brackets. The tests whose inputs have that
  form are instances of a round-trip lemma:
  - the comment tests (lines 276-293): `Comments.StripFirstLine`,
    `Comments.StripComment1`, `Comments.StripCons` and
    `Comments.StripWithoutHash`;
  - the number tests (lines 296-302): `Literals.NumberRoundTrip`;
  - the integer lists `[-1 2 3]` and `[400]` (lines 317-329), the string
    lists (lines 334-346), the bare floats `1 2. -3.0` (line 351) and the
    bool and integer items (lines 387-411): `Values.ValuesRoundTrip` and
    `Params.ItemRoundTrip`;
  - the camera and sampler tests (lines 491-517):
    `Options.DirectiveRoundTrip`;
  - the integrator test (lines 522-530): `Options.NoParameters`.

  The other tests have other whitespace: `[  1 2 3]` (line 358),
  `[ 0 1 2 ]` (line 374), the item lists (lines 416-453) and the film test
  (lines 535-536), whose items are separated by line feeds, and the inputs
  of the look-at and comment-in-list tests (lines 306, 473-476) once their
  comments are stripped. Whitespace in front of a list or an item list is
  covered by `Parsing.ListsSkipWs`, `Values.ItemValuesSkipWs` and
  `Parsing.SkipWsOver`. Whitespace inside brackets, or between items other
  than a single space, is not covered by a round trip.
- Options.Numbers: states only how many numbers are read. What they are is
  stated by `Options.NumbersRoundTrip`.
