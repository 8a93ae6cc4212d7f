# cJSON in Rust: a verified model

This project models the two halves of the library and how they meet.

The first half is the JSON text pipeline of `cjson-rs`. Bytes become tokens
(`Tokenising`), tokens become values (`Parsing`), values become bytes again
(`Printing`). The tokeniser, the parser and the writer are classes whose
methods update a position, a cursor and depth, and a buffer, as in the source.
Each is proved to compute a pure function of its input (`Lexical`, `Grammar`,
`Printing.Text`), with every error kind and error position. About those
functions the project proves what they are for: the string codec and the number
grammar are inverted exactly, a text is parsed to a value exactly when its bytes
spell that value within the nesting limit (`Documents`, `Leading`), a number is
worth what its digits and exponent say (`Decimals`), an error stands where no
value can go on (`Stuck`, `Reports`, `LexErrors`), parsing inverts printing, the
layout of each printed form is told token by token (`Layouts`, `CLayouts`),
strict and prefix parsing agree, and positions are a function of the offset.

The second half is the tree behind the C interface. `Heaps.Heap` is the memory:
maps from addresses to nodes and to C strings, which methods update through raw
addresses with the pointer writes of the source. An allocation succeeds or fails
as an arbitrary schedule says and returns any unused address; freeing needs a
live address. A ghost field says what the memory stands for: a `Forest` of
ordered child lists with one owner for every string. Every mutator is proved to
make one move on the forest, every move is proved to keep the forest well
formed, and so every run of calls does. Freeing is proved to take exactly a
subtree and the strings it owns. Building and copying are all or nothing:
`Grown(f, D, t)` says that `f` is `D` with one new tree `t`, so that freeing `t`
gives `D` back.

`Minifying` rewrites a buffer in place and `Segments` says what it leaves;
`Comparing` is structural equality and `Equality` says of which values it holds;
`CPrinting` is the pretty form of the C interface; `Interface` joins the halves.
`Effects` and `Adding` say what each call does to the trees that are read, and
`Calls` runs a call and reads the value afterwards.

Finite numbers are exact decimals in normal form, negative zero kept apart, with
the range limit at which a double overflows. They are displayed as plain digits
with an optional fraction and read by exact evaluation. Strings are sequences of
Unicode scalar values; the UTF-8 encoder and decoder are written out.

Some promises do not hold of the code for all inputs, and are proved on exactly
the inputs where they do, each with an input that fails:

- Equality is symmetric for a left value if and only if that value holds a
  not-a-number or no object in it has two members equal to each other
  (`Comparing.SymmetricExactly`).
- Replacing an item leaves every string with one owner if and only if the key
  that moves to the replacement is not marked const
  (`Forests.ReplaceKeepsOwnership`). The key that found the old item finds the
  replacement if and only if that had no key or a matching one
  (`Effects.ReplacedFound`).
- An error of the parser stands at the first token with which no value can go on,
  unless that is a closing bracket which would have fitted but for the comma
  before it: then it stands at the comma (`Stuck.ValueStuck`).
- Bytes after a parsed prefix leave the result alone if and only if they do not
  carry on a number at its very end (`Prefix.PrefixStable`).
- Minifying keeps the tokens of an accepted text if and only if no number in it
  is carried on across a space (`MinifyExactly.TokensKeptExactly`), and is
  idempotent if and only if no two kept bytes join to open a comment
  (`MinifyExactly.IdempotentExactly`). Documents meet both, with comments in
  them as well (`Comments.MinifyDropsComments`).
- A node with no references below it can be read if and only if every const key
  below it is lent by the caller or is a live string
  (`Readable.ReadableExactly`); so it always can after runs that borrow lent
  names only (`Names.RunReadable`).

The inputs that fail, in the same order, are in `Comparing.AsymmetricExample`,
`Runs.ReplaceCanBreakOwnership` and `Effects.ReplacedLost`,
`Reports.CommaReported`,
`Prefix.NumberGoesOn`, `MinifyExactly.NumbersMerge` and
`MinifyExactly.SlashesJoin`, and `Names.DanglingRun`.

## Model

| member | source | states |
|---|---|---|
| Utf8.ReadEncoded | cjson-rs/src/tokeniser.rs:253-274 | Reading inverts the UTF-8 encoder (section 4 of RFC 3629) whatever bytes follow. |
| Utf8.ReadIsEncoded | cjson-rs/src/tokeniser.rs:253-274 | Whatever is read as a character is exactly the encoding of it, so overlong forms, surrogates and truncated sequences are errors. |
| Utf8.EncodeExactly | cjson-rs/src/tokeniser.rs:253-274 | A character is encoded as the one byte sequence of section 4 of RFC 3629 that carries its number. |
| Tokenising.Tokeniser.Advance | cjson-rs/src/tokeniser.rs:75-86 | Moves over one byte, counting a line after a newline and a column otherwise; unless the byte continues a UTF-8 sequence, the position stays the one its offset determines. |
| Tokenising.Tokeniser.SkipWs | cjson-rs/src/tokeniser.rs:89-98 | Stops after the longest run of whitespace. |
| Tokenising.Tokeniser.ReadLiteral | cjson-rs/src/tokeniser.rs:143-154 | Takes exactly the literal, or reports where it started. |
| Tokenising.Tokeniser.ReadHex4 | cjson-rs/src/tokeniser.rs:236-250 | Reads four hex digits to their value; a missing or wrong digit is reported, each by its own kind, at the start of the escape. |
| Tokenising.Tokeniser.ReadUnicodeEscape | cjson-rs/src/tokeniser.rs:211-234 | Agrees with the pure reader of escapes, surrogate pairs included, in value, length, error kind and error place. |
| Tokenising.Tokeniser.ReadUtf8Char | cjson-rs/src/tokeniser.rs:253-274 | Agrees with the pure UTF-8 reader and advances one column for a whole character, a newline included; the end of input is an error of its own. |
| Tokenising.Tokeniser.ReadString | cjson-rs/src/tokeniser.rs:157-208 | The loop over escapes and characters computes the pure string reader, errors included. |
| Tokenising.Tokeniser.ScanNumber | cjson-rs/src/tokeniser.rs:277-337 | The four digit loops consume exactly the lexeme the pure scanner finds. |
| Tokenising.Tokeniser.ReadNumber | cjson-rs/src/tokeniser.rs:277-337 | The value is that of the consumed lexeme; out-of-range lexemes are an error at its start. |
| Tokenising.Tokeniser.NextToken | cjson-rs/src/tokeniser.rs:100-141 | Dispatches on the first byte as the pure reader of one token does. |
| Tokenising.Tokeniser.Tokenise | cjson-rs/src/tokeniser.rs:25-36 | Collects every token with its start and end position, or the first error. |
| Tokenising.Tokeniser.TokenisePrefix | cjson-rs/src/tokeniser.rs:43-61 | Collects the tokens before the first error, if there is one, and tells where the last of them ends. |
| Escapes.EscapeExactly | cjson-rs/src/tokeniser.rs:211-234 | An escape reads as c, taking n bytes, exactly when those bytes spell the UTF-16 form of c in hex digits of either case (section 2.2 of RFC 2781), so every lone or mispaired surrogate is rejected. |
| Escapes.PairValue | cjson-rs/src/tokeniser.rs:211-234 | A high and a low surrogate always join to a scalar value whose UTF-16 form they are, so the fallback after joining is never reached. |
| Escapes.SingleValue | cjson-rs/src/tokeniser.rs:211-234 | A unit that is no surrogate is always a scalar value, so the other fallback is never reached either. |
| Escapes.ReadQuad | cjson-rs/src/tokeniser.rs:236-250 | Four hex digits in either case read to their value, and only those are accepted. |
| Escapes.HexDigitExactly | cjson-rs/src/tokeniser.rs:236-250 | The sixteen digits in lower case and in upper case are hex digits, with these values, and nothing else is. |
| Escapes.QuadExactly | cjson-rs/src/tokeniser.rs:236-250 | Four of those digits are worth what they say in base 16, most significant first. |
| Escapes.Utf16Injective | cjson-rs/src/tokeniser.rs:211-234 | Different characters have different UTF-16 spellings. |
| Escapes.StringLocal | cjson-rs/src/tokeniser.rs:157-208 | A string literal reads the same whatever follows its closing quote. |
| NumberReading.ScanSound | cjson-rs/src/tokeniser.rs:277-337 | The bytes consumed are the text of the lexeme returned (section 6 of RFC 8259). |
| NumberReading.ScanComplete | cjson-rs/src/tokeniser.rs:277-337 | Any lexeme of the grammar with nothing after it that carries it on is consumed exactly. |
| NumberReading.ScanEnded | cjson-rs/src/tokeniser.rs:277-337 | What follows a scanned lexeme never carries it on. |
| NumberReading.ScanExactly | cjson-rs/src/tokeniser.rs:277-337 | A lexeme is scanned off the front of its text and what follows if and only if the next byte does not carry it on: a digit unless the lexeme is a lone zero, a point before any fraction or exponent, an exponent mark before any exponent. |
| NumberReading.LexemeUnique | cjson-rs/src/tokeniser.rs:277-337 | Different lexemes have different texts. |
| NumberReading.ReadsLongest | cjson-rs/src/tokeniser.rs:277-337 | No lexeme at the head of the input is longer than the one read. |
| NumberReading.NumberMaximal | cjson-rs/src/tokeniser.rs:277-337 | On success the text read is a number of the grammar and no longer prefix of the input is one. |
| NumberReading.NumberRead | cjson-rs/src/tokeniser.rs:277-337 | A lexeme with nothing after it that carries it on is read to its exact value, or reported out of range if it is. |
| NumberTexts.NumbersExactly | cjson-rs/src/tokeniser.rs:277-325 | The texts of lexemes are those a finite automaton over bytes accepts: sign, no leading zero, fraction, exponent. |
| Decimals.NumberExact | cjson-rs/src/tokeniser.rs:327-336 | The number read off a lexeme has its sign, and is its digits scaled up by a positive exponent and down by the fraction and a negative exponent. |
| Decimals.RangeExactly | cjson-rs/src/tokeniser.rs:327-336 | A lexeme is read if what it is worth is less than 2^1024 - 2^970, and out of range otherwise. |
| Decimals.FirstDigit | cjson-rs/src/tokeniser.rs:327-336 | Digits count by their places. |
| Decimals.DisplayExactly | cjson-rs/src/serialiser.rs:42-51 | A finite number is displayed as the one lexeme of its value that has no exponent and no zero at the end of a fraction. |
| NumberReading.NumberLocal | cjson-rs/src/tokeniser.rs:277-337 | A text that starts with the bytes of a number reads the same number if and only if what it has after them does not carry it on. |
| Numbers.EvalDisplay | cjson-rs/src/serialiser.rs:42-51 | Evaluating the displayed digits of a finite number gives the number back, sign of zero included. |
| Numbers.EvalExact | cjson-rs/src/tokeniser.rs:327-336 | Two lexemes read as the same number exactly when their signs and decimal values agree. |
| Values.PrintableFinite | cjson-rs/src/serialiser.rs:42-51 | Printing loses nothing of a value exactly when all its numbers are finite. |
| Values.PrintableDepth | cjson-rs/src/serialiser.rs:30-40 | Replacing non-finite numbers by null keeps the nesting depth. |
| Streams.ScanIsStream | cjson-rs/src/tokeniser.rs:25-36 | The positions aside, the tokens of a text are those of the recursive reading of it. |
| Streams.TokenLocal | cjson-rs/src/tokeniser.rs:43-61 | A text that starts with the bytes of a token reads the same token, and for a number does so if and only if what follows does not carry it on. |
| Grammar.ValueComplete | cjson-rs/src/parser.rs:111-260 | The flattening of a value that fits the limit is recognised as that value, ending where the flattening ends. |
| Grammar.ValueSound | cjson-rs/src/parser.rs:111-260 | Whatever is recognised is the flattening of the value returned and fits the limit. |
| Grammar.RecognisesExactly | cjson-rs/src/parser.rs:111-260 | parse_value at cursor i gives v ending at j if and only if the tokens from i to j are the flattening of v and depth plus the nesting of v is within the limit (sections 3 to 5 of RFC 8259). |
| Grammar.Unambiguous | cjson-rs/src/parser.rs:111-260 | No token sequence begins with the tokens of two different values, so member order and duplicate keys survive. |
| Parsing.Parser.Enter | cjson-rs/src/parser.rs:98-104 | Refuses the level after the last allowed one, at the position of the bracket; otherwise adds one. |
| Parsing.Parser.Leave | cjson-rs/src/parser.rs:106-108 | Is only called above depth zero and takes one level off. |
| Parsing.Parser.ParseValue | cjson-rs/src/parser.rs:111-141 | Computes the grammar function from cursor and depth; on success depth is as on entry. |
| Parsing.Parser.ParseArray | cjson-rs/src/parser.rs:144-185 | The loop over elements computes the grammar function, each error kind and place included. |
| Parsing.Parser.ParseObject | cjson-rs/src/parser.rs:189-260 | The loop over members computes the grammar function, each error kind and place included. |
| Parsing.ParseWithOptions | cjson-rs/src/parser.rs:35-50 | Tokenises everything, parses one value and rejects trailing tokens. |
| Parsing.ParseStrict | cjson-rs/src/parser.rs:30-32 | Parses with the limit of 1000. |
| Parsing.ParseFromPrefix | cjson-rs/src/parser.rs:59-72 | Parses the leading value; the index before the cursor exists, and the end reported is that of the last token used. |
| Printing.Writer.WriteString | cjson-rs/src/serialiser.rs:55-73 | Appends the quoted text with short escapes, escapes for control characters and raw UTF-8; write_escaped of the C interface has the same arms. |
| Printing.CharShortest | cjson-rs/src/serialiser.rs:55-73 | What is written of a character is its shortest spelling, with hex digits in lower case; there is only one. |
| Printing.StringShortest | cjson-rs/src/serialiser.rs:55-73 | What is written of a string is that, character by character, between quotes. |
| Printing.StringLeast | cjson-rs/src/serialiser.rs:55-73 | No spelling of the string is shorter. |
| Printing.Writer.WriteNumber | cjson-rs/src/serialiser.rs:42-51 | Appends the displayed digits, or null for a number that is not finite. |
| Printing.Writer.WriteIndent | cjson-rs/src/serialiser.rs:135-139 | Appends depth times the step in spaces. |
| Printing.Writer.WriteArray | cjson-rs/src/serialiser.rs:75-101 | Both loops, compact and pretty, append the text of the array, commas and layout in place. |
| Printing.Writer.WriteObject | cjson-rs/src/serialiser.rs:103-133 | Both loops append the text of the object, keys, separators and layout in place. |
| Printing.Writer.WriteValue | cjson-rs/src/serialiser.rs:30-40 | Appends the text of the value and nothing else. |
| Printing.Serialise | cjson-rs/src/serialiser.rs:16-20 | Gives the compact text. |
| Printing.SerialisePretty | cjson-rs/src/serialiser.rs:23-27 | Gives the text indented by two. |
| Layouts.TextLaid | cjson-rs/src/serialiser.rs:30-139 | Told token by token: compact text has nothing between tokens; in pretty text each element and closing bracket starts a line behind two spaces for every bracket open there, and a space follows the colon. |
| RoundTrip.StringBack | cjson-rs/src/serialiser.rs:55-73 | For every string and any bytes after it, reading what was written gives the string and stops after the closing quote (section 7 of RFC 8259). |
| RoundTrip.CharBack | cjson-rs/src/serialiser.rs:55-73 | Each character is read back from its short escape, its escape or its raw bytes. |
| RoundTrip.TextStream | cjson-rs/src/serialiser.rs:30-139 | In every layout and at every depth the tokens of the text of a value are the flattening of it, ahead of whatever follows. |
| RoundTrip.ParsesExactly | cjson-rs/src/parser.rs:35-50 | A text parses to v if and only if its tokens are the flattening of v, nothing else follows, and v nests within the limit. |
| Documents.ParsesDocument | cjson-rs/src/parser.rs:35-50 | Over bytes: a text parses to v at a limit if and only if it spells v by the grammar of RFC 8259, spaces between tokens included, and v nests within the limit. |
| Documents.StreamExactly | cjson-rs/src/tokeniser.rs:25-36 | For tokens with no two numbers adjacent, a text is tokenised as them if and only if it is made of their spellings with spaces around. |
| Documents.TokenExactly | cjson-rs/src/tokeniser.rs:100-141 | A token is read off the front if and only if the bytes spell it and, for a number, nothing that follows carries it on. |
| Documents.StringExactly | cjson-rs/src/tokeniser.rs:157-208 | A string literal reads as a text if and only if it spells it character by character between quotes (section 7 of RFC 8259). |
| Documents.CharExactly | cjson-rs/src/tokeniser.rs:157-234 | Each character reads from its UTF-8 form, a short escape or an escaped UTF-16 form, and from nothing else. |
| Documents.DocumentUnambiguous | cjson-rs/src/parser.rs:35-50 | No text spells two values. |
| Leading.SpacesAround | cjson-rs/src/tokeniser.rs:89-98 | The bytes 0x20, 0x09, 0x0A and 0x0D around a document change nothing. |
| Leading.PrefixDocument | cjson-rs/src/parser.rs:59-72 | A prefix parse gives v and n if and only if the first n bytes spell v up to the last of them, v nests within 1000 levels, and the rest does not carry on a number at the end. |
| Reports.StrictError | cjson-rs/src/parser.rs:35-50 | A strict parse fails with the first error of the tokeniser, or else where the tokens get stuck, or else at the first token after a value; and with no other error. |
| Reports.PrefixError | cjson-rs/src/parser.rs:59-72 | A prefix parse fails exactly where the tokens before any error get stuck. |
| Stuck.ValueStuck | cjson-rs/src/parser.rs:110-255 | An error of the parser stands at the first token with which no value can go on, or at the comma before a closing bracket that would have fitted; at an opening bracket without room; or at the end. |
| Reports.EndReported | cjson-rs/src/parser.rs:110-255 | The end of the input is what was unexpected if and only if some value goes on from the tokens, none is whole, and all brackets had room. |
| Reports.CommaReported | cjson-rs/src/parser.rs:144-185 | In "[null,]" the tokens could go on after the comma, and yet the comma is what is reported. |
| LexErrors.TokenErrorExactly | cjson-rs/src/tokeniser.rs:100-141 | What a text that starts with no token is refused with, by its first byte, as an equivalence. |
| LexErrors.StringErrorExactly | cjson-rs/src/tokeniser.rs:157-208 | A string literal is refused exactly at the first character that is wrong, or at its opening quote when the text ends in it. |
| LexErrors.CharErrorExactly | cjson-rs/src/tokeniser.rs:157-208 | Which character is wrong, and how. |
| LexErrors.EscapeErrorExactly | cjson-rs/src/tokeniser.rs:211-234 | Which escape is wrong, and how: too few digits, or a surrogate without its partner. |
| LexErrors.NumberErrorExactly | cjson-rs/src/tokeniser.rs:277-337 | A number is invalid if and only if no lexeme leads the text that the next byte does not carry on, and out of range if and only if the one that does is. |
| LexErrors.ScanErrorIs | cjson-rs/src/tokeniser.rs:25-36 | The error of a text is that of what follows its last token and the spaces after it, at the offset where that goes wrong. |
| RoundTrip.RoundTrips | cjson-rs/src/serialiser.rs:16-139 | Parsing a text in any layout gives the value back, non-finite numbers as null, if and only if it nests within the limit. |
| RoundTrip.ParseInvertsPrint | cjson-rs/src/serialiser.rs:16-27 | Within 1000 levels both printers are inverted by parse, up to non-finite numbers; exactly when all numbers are finite. |
| RoundTrip.LimitExact | cjson-rs/src/parser.rs:98-108 | parse_with_options accepts at limit n if and only if some limit of at least n accepts and the value nests at most n deep. |
| Prefix.ParseLocal | cjson-rs/src/parser.rs:59-72 | A value recognised in the tokens of a text is recognised at the same place in those of any extension that agrees on them. |
| Prefix.TokenAhead | cjson-rs/src/tokeniser.rs:43-61 | A token with at least one byte after it reads the same in every text that agrees up to and including that byte. |
| Prefix.PrefixStable | cjson-rs/src/parser.rs:59-72 | Appending bytes leaves the leading value and its end as they are if and only if the value is not a number at the very end that the first new byte carries on. |
| Prefix.NumberGoesOn | cjson-rs/src/parser.rs:59-72 | An input of the other kind: 1 is a leading value of "1" and not of "12". |
| Prefix.PrefixIsStrict | cjson-rs/src/parser.rs:59-72 | A leading value ending at n has 1 <= n <= length, and the first n bytes parse strictly to it. |
| Prefix.StrictIsPrefix | cjson-rs/src/parser.rs:35-72 | A strictly parsed text has that value as its leading value, with only whitespace after its end. |
| Positions.PositionMeaning | cjson-rs/src/tokeniser.rs:75-86 | The line is one more than the newlines before the offset, the column one more than the code points since the last. |
| Positions.CodePointsCount | cjson-rs/src/tokeniser.rs:253-274 | Counting the bytes that start a character counts the characters. |
| Positions.TokensTile | cjson-rs/src/tokeniser.rs:25-61 | Tokens tile the input with only whitespace between them; every start, end and error position is the one its offset determines, an error lying after the last token and inside the input. |
| Positions.ErrorInside | cjson-rs/src/parser.rs:35-72 | Every parse error lies at an offset of the input with the line and column of that offset. |
| Positions.StripUtf8Bom | cjson-rs-ffi/src/lib.rs:55-61 | Skips three bytes exactly when they are the byte order mark. |
| Positions.OffsetsInside | cjson-rs-ffi/src/lib.rs:55-70 | Every error offset and parse end given to a C caller, byte order mark included, lies inside the buffer. |
| Minifying.MinifyInPlace | cjson-rs-ffi/src/convert.rs:271-332 | With write <= read <= end at every step, the buffer up to its new NUL holds the pure minification of the old text, nothing after the old NUL is touched, and reading never passes it. |
| Minifying.CopyLiteral | cjson-rs-ffi/src/convert.rs:283-304 | The loop over a string literal copies it verbatim, escapes included, source and destination overlapping. |
| Minifying.SkipBlock | cjson-rs-ffi/src/convert.rs:312-322 | A block comment is skipped to its end, or to the NUL. |
| Segments.MinifyLeaves | cjson-rs-ffi/src/convert.rs:271-332 | On all bytes, what minifying leaves are the literals and single bytes of the text, without its blanks and comments, each segment found by what delimits it. |
| Segments.SpanExactly | cjson-rs-ffi/src/convert.rs:283-304 | A literal ends at the first quote behind an even number of backslashes, or with the text. |
| Segments.LineExactly | cjson-rs-ffi/src/convert.rs:306-311 | A line comment runs to the first line feed, which stays. |
| Segments.BlockExactly | cjson-rs-ffi/src/convert.rs:312-323 | A block comment runs through the first closing after its opening, or to the end. |
| MinifyMeaning.BodySpan | cjson-rs-ffi/src/convert.rs:283-304 | The literal scanner of the minifier ends where read_string ends. |
| MinifyMeaning.FlattenSeparated | cjson-rs/src/parser.rs:111-260 | No value has two numbers side by side. |
| MinifyMeaning.SeparatedApart | cjson-rs/src/parser.rs:111-260 | In a text whose numbers are not side by side no number is carried on across a space. |
| MinifyMeaning.MinifyKeepsTokens | cjson-rs-ffi/src/convert.rs:271-332 | A text the tokeniser accepts keeps its tokens when no number is followed, after a space, by a byte that carries it on. |
| MinifyMeaning.MinifyPreserves | cjson-rs-ffi/src/convert.rs:271-332 | A text that parses to v at some limit still does after minifying, and minifying again changes nothing. |
| MinifyExactly.TokensKeptExactly | cjson-rs-ffi/src/convert.rs:271-332 | Minifying a text the tokeniser accepts keeps its tokens if and only if no number in it is followed, after a space, by a byte that carries it on. |
| MinifyExactly.MergingCounts | cjson-rs-ffi/src/convert.rs:271-332 | When some number is, the minified text has fewer tokens, if it has any reading at all. |
| MinifyExactly.Absorb | cjson-rs/src/tokeniser.rs:277-337 | A number run into the digits of a text has no more tokens than that text alone. |
| MinifyExactly.TailScan | cjson-rs/src/tokeniser.rs:277-337 | Where a lexeme followed by no digit goes on to end, by whether it has a fraction or an exponent already. |
| MinifyExactly.IdempotentExactly | cjson-rs-ffi/src/convert.rs:271-332 | On all bytes, minifying a second time changes nothing if and only if no kept slash comes, once spaces and comments are dropped, before a kept slash or star. |
| MinifyExactly.SpanKept | cjson-rs-ffi/src/convert.rs:283-304 | A closed string literal ends at the same byte whatever follows; one that is not closed reaches the NUL. |
| MinifyExactly.NumbersMerge | cjson-rs-ffi/src/convert.rs:271-332 | An input that loses its tokens: "1 2" is accepted, its numbers merge, and it becomes "12". |
| MinifyExactly.SlashesJoin | cjson-rs-ffi/src/convert.rs:271-332 | An input on which a second pass matters: "/ /x" keeps its slashes once and nothing twice. |
| Comments.MinifyBlank | cjson-rs-ffi/src/convert.rs:306-323 | On all bytes, minifying gives the same as minifying with every byte of a comment made a space. |
| Comments.BlankAccepted | cjson-rs-ffi/src/convert.rs:306-323 | A text the tokeniser accepts has no comment to blank out. |
| Comments.TokensKept | cjson-rs-ffi/src/convert.rs:271-332 | For a text the tokeniser accepts once its comments are blanked out, minifying keeps those tokens if and only if no number in it is carried on across a space or a comment. |
| Comments.MinifyDropsComments | cjson-rs-ffi/src/convert.rs:271-332 | A text with comments that parses to v without them parses to v after minifying, and minifying again changes nothing. |
| MinifyMeaning.MinifyText | cjson-rs/src/serialiser.rs:30-139 | Minifying a value in any layout, before any bytes, gives its compact text. |
| MinifyMeaning.MinifyPretty | cjson-rs/src/serialiser.rs:23-27 | Minifying the pretty text gives the compact text. |
| MinifyMeaning.StreamNulFree | cjson-rs/src/tokeniser.rs:25-36 | A text the tokeniser accepts has no NUL, so it is a C string. |
| MinifyMeaning.MinifyDocument | cjson-rs-ffi/src/lib.rs:1453-1455 | In place, a NUL-terminated document becomes a shorter or equal one of the same value. |
| Comparing.Transitive | cjson-rs-ffi/src/lib.rs:1008-1040 | Comparison is transitive on all values, in both case modes. |
| Comparing.ReflexiveExactly | cjson-rs-ffi/src/lib.rs:1008-1040 | A value equals itself exactly when it holds no not-a-number. |
| Comparing.NaNEqualsNothing | cjson-rs-ffi/src/lib.rs:1008-1040 | A left value that holds a not-a-number equals nothing. |
| Comparing.SensitiveImpliesInsensitive | cjson-rs-ffi/src/lib.rs:1008-1040 | Case-sensitive equality implies case-insensitive equality. |
| Comparing.Symmetric | cjson-rs-ffi/src/lib.rs:1008-1040 | With no two members of an object equal to each other on the left, at any level, equality can be turned round. |
| Comparing.SymmetricExactly | cjson-rs-ffi/src/lib.rs:1008-1040 | Equality with a on the left is symmetric for every b if and only if a holds a not-a-number or has no such twins. |
| Comparing.SymmetricWithDistinctKeys | cjson-rs-ffi/src/lib.rs:1008-1040 | In particular when keys are pairwise distinct at every level, up to ASCII case in the insensitive mode. |
| Comparing.AsymmetricExample | cjson-rs-ffi/src/lib.rs:1021-1037 | With a repeated key it fails: {"k":true,"k":true} equals {"k":true,"k":false}, not the other way. |
| Comparing.TwinsBreakSymmetry | cjson-rs-ffi/src/lib.rs:1021-1037 | Every value with twins and no not-a-number equals some value that does not equal it. |
| Comparing.OrderIrrelevant | cjson-rs-ffi/src/lib.rs:1008-1040 | Permuting members at any level on either side changes no comparison. |
| Equality.ComparesExactly | cjson-rs-ffi/src/lib.rs:1008-1040 | For a left value without not-a-number and without two members of the same key and value, equality holds of exactly the values with the same members in some order at every level, the two zeros being one number. |
| Equality.MeetsExactly | cjson-rs-ffi/src/lib.rs:1008-1040 | On all values, equality holds exactly when every item and every member on the left is met by one of equal value, and of the same key, among as many on the right; not-a-number meets nothing. |
| Equality.KeysMatchExactly | cjson-rs-ffi/src/lib.rs:1008-1040 | Keys match when they are the same, or in the other mode the same up to the case of the letters A to Z. |
| Memory.UpToNulExact | cjson-rs-ffi/src/convert.rs:29-41 | A C string keeps a text exactly when it has no U+0000. |
| Forests.BelowSplits | cjson-rs-ffi/src/convert.rs:139-146 | A subtree is its root and the disjoint subtrees of its children. |
| Forests.PutKeepsInv | cjson-rs-ffi/src/convert.rs:161-176 | Putting a detached node at any place of a list outside its own subtree keeps lists, ancestry and ownership sound. |
| Forests.TakeKeepsInv | cjson-rs-ffi/src/convert.rs:180-196 | Detaching a child keeps them sound, and the child may be attached again. |
| Forests.TakeUndoesPut | cjson-rs-ffi/src/convert.rs:161-196 | Detaching what was attached gives the old forest back. |
| Forests.PutUndoesTake | cjson-rs-ffi/src/convert.rs:161-196 | Attaching what was detached at its place gives the old forest back. |
| Forests.NewKeepsInv | cjson-rs-ffi/src/convert.rs:368-375 | A new node is a new root and disturbs nothing. |
| Forests.InstallKeepsInv | cjson-rs-ffi/src/convert.rs:338-365 | Giving a node a new string, its old one freed, keeps every string with exactly one owner. |
| Forests.BorrowKeepsInv | cjson-rs-ffi/src/lib.rs:819-840 | Taking a caller's name, the old key freed, keeps every string with exactly one owner. |
| Forests.DropKeepsInv | cjson-rs-ffi/src/convert.rs:133-155 | Freeing a detached tree with the strings it owns keeps the rest sound. |
| Forests.DropNew | cjson-rs-ffi/src/convert.rs:46-92 | Freeing a node just made gives the old forest back. |
| Forests.DropInstall | cjson-rs-ffi/src/convert.rs:99-125 | Freeing a node after giving it a string frees as much as before, and the string. |
| Forests.DropPut | cjson-rs-ffi/src/convert.rs:99-125 | Freeing a root after attaching a root to it is freeing both. |
| Forests.ReplaceKeepsInv | cjson-rs-ffi/src/lib.rs:1347-1377 | Replacing keeps lists, ancestry and ownership sound unless a borrowed key moves. |
| Forests.ReplaceKeepsOwnership | cjson-rs-ffi/src/lib.rs:1366-1372 | Some assignment of owners fits after replacing if and only if the key that moves, if one does, is not marked const. |
| Links.LinkedUnique | cjson-rs-ffi/src/types.rs:28-50 | The forest determines every field of every node, so an unchanged forest is an unchanged memory. |
| Links.SpliceLinked | cjson-rs-ffi/src/convert.rs:161-176 | Linking a node between two neighbours carries next, prev and child from the old lists to the new ones; the first child has no prev. |
| Links.UnspliceLinked | cjson-rs-ffi/src/convert.rs:180-196 | So does joining the neighbours of a node and clearing its links. |
| Links.DropLinked | cjson-rs-ffi/src/convert.rs:133-155 | Removing a detached tree leaves every other list linked. |
| Freeing.FreeKid | cjson-rs-ffi/src/convert.rs:139-146 | When the earlier children are freed, the next child is still whole and its next pointer still leads on. |
| Freeing.FreeLast | cjson-rs-ffi/src/convert.rs:147-154 | Once the children are gone, the node and the strings it owns are all that is left of its subtree. |
| Heaps.Heap.AllocNode | cjson-rs-ffi/src/convert.rs:20-27 | Fails exactly as the schedule says; else a zeroed node at an unused address. |
| Heaps.Heap.AllocCstr | cjson-rs-ffi/src/convert.rs:32-41 | Fails exactly as the schedule says; else a copy of the text at an unused address. |
| Heaps.Heap.NewNode | cjson-rs-ffi/src/convert.rs:368-375 | A new detached node of the given type, or no change when the allocation fails. |
| Heaps.Heap.AttachChild | cjson-rs-ffi/src/convert.rs:161-176 | The walk to the tail makes child the last child of parent and changes nothing else. |
| Heaps.Heap.Detach | cjson-rs-ffi/src/convert.rs:180-196 | Takes the item out of its list, linking its neighbours, and clears its links. |
| Heaps.Heap.ChildAtIndex | cjson-rs-ffi/src/convert.rs:199-213 | The child at the index, or NULL for a negative index or one past the end. |
| Heaps.Heap.FreeCjson | cjson-rs-ffi/src/convert.rs:133-155 | Frees every node of the subtree and every string those nodes own, each exactly once and while live, and nothing a reference or a const key borrows. |
| Heaps.Heap.Delete | cjson-rs-ffi/src/lib.rs:142-144 | Frees a detached tree; what remains is sound. |
| Heaps.Heap.GetObjectItem | cjson-rs-ffi/src/lib.rs:438-467 | The first child whose key matches in the given case mode, or NULL when none does. |
| Heaps.Heap.DetachObjectItem | cjson-rs-ffi/src/lib.rs:1258-1269 | Detaches exactly the first matching child, or nothing. |
| Heaps.Heap.InsertItemInArray | cjson-rs-ffi/src/lib.rs:1315-1345 | Inserts before the child at the index or appends past the end; refuses a negative index and a target that is no array. |
| Heaps.Heap.AddItemToArray | cjson-rs-ffi/src/lib.rs:780-794 | Appends to an array and refuses other targets. |
| Heaps.Heap.AttachNamedChild | cjson-rs-ffi/src/convert.rs:338-365 | Copies the key, frees the key the child owned, clears the const mark and appends; no change when the copy fails. |
| Heaps.Heap.AddItemToObject | cjson-rs-ffi/src/lib.rs:797-815 | As above for objects, refusing other targets. |
| Heaps.Heap.AddItemToObjectCS | cjson-rs-ffi/src/lib.rs:819-840 | Frees the key the item owned, takes the name itself unowned, and appends. |
| Heaps.Heap.WrapAsReference | cjson-rs-ffi/src/lib.rs:842-852 | A new node that borrows the text and the children of the item. |
| Heaps.Heap.AddItemReferenceToArray | cjson-rs-ffi/src/lib.rs:855-873 | Appends a reference to the item, or changes nothing. |
| Heaps.Heap.AddItemReferenceToObject | cjson-rs-ffi/src/lib.rs:876-899 | Appends a named reference; when the key cannot be copied the wrapper is freed and nothing changed. |
| Heaps.Heap.ReplaceViaPointer | cjson-rs-ffi/src/lib.rs:1347-1377 | Puts the replacement in the place of the item, hands it the key if it has none, and frees the item. |
| Heaps.Heap.LinkLast | cjson-rs-ffi/src/convert.rs:116-122 | Linking after the last child is appending. |
| Runs.StepKeepsInv | cjson-rs-ffi/src/convert.rs:133-196 | Every call keeps lists, ancestry and ownership sound; for a whole tree added at once this is what ValueToCjson, Duplicate and CreateNumericArray promise of their results. |
| Runs.RunKeepsInv | cjson-rs-ffi/src/convert.rs:133-196 | So does every sequence of create, build, add, named add, borrowed add, reference, insert, detach, replace and delete calls. |
| Runs.RunIsSound | cjson-rs-ffi/src/convert.rs:133-196 | After any run a node is at one place of at most one list, no parent is inside its child, and every live string has exactly one owning field. |
| Runs.DeleteAll | cjson-rs-ffi/src/convert.rs:133-155 | After any run, deleting every root once, in any order, is allowed and leaves no node and no string. |
| Runs.ReplaceCanBreakOwnership | cjson-rs-ffi/src/lib.rs:1366-1372 | A run of four calls after which a replacement hands a caller's name to a node that takes it for its own, and no assignment of owners fits. |
| Names.StepNamesLent | cjson-rs-ffi/src/lib.rs:819-840 | Every call that borrows only names the caller lends leaves every const key lent. |
| Names.RunReadable | cjson-rs-ffi/src/lib.rs:819-840 | After any run that borrows only names the caller lends, every tree without references can be read, const keys included. |
| Names.OwnKeyDangles | cjson-rs-ffi/src/lib.rs:831-836 | Borrowing the key the item itself owns leaves a sound forest whose key has been freed, so the item can no longer be read. |
| Names.DanglingRun | cjson-rs-ffi/src/lib.rs:819-840 | A run of five calls that ends so: name an item, detach it, and add it again under its own key. |
| Readable.ReadableExactly | cjson-rs-ffi/src/lib.rs:527-574 | On every sound forest, a node with no references below it can be read if and only if each const key below it is lent by the caller or is a live string. |
| Readable.ShownExactly | cjson-rs-ffi/src/convert.rs:46-125 | A subtree of the forest stands for a tree if and only if it holds no reference and its const keys are all lent; with nothing lent, if and only if it is plain. |
| Readable.ViewsShown | cjson-rs-ffi/src/lib.rs:527-574 | What is read through pointers, without references, is the tree the forest owns there. |
| Readable.ViewsUnique | cjson-rs-ffi/src/lib.rs:527-574 | At one address at most one tree can be read. |
| Effects.InsertEffect | cjson-rs-ffi/src/convert.rs:161-176 | As read through pointers before and after, attaching adds exactly one child to the tree of the parent, at its place, and leaves the child's tree as it was; const keys and references may stand anywhere, as long as what lies below the children does not lead back into the list that changes. |
| Effects.DetachEffect | cjson-rs-ffi/src/convert.rs:180-196 | As read before and after, detaching removes exactly one child and leaves both trees otherwise as they were, const keys and references included. |
| Effects.ReplaceEffect | cjson-rs-ffi/src/lib.rs:1347-1377 | As read before and after, replacing changes the tree of the parent in one place only: the replacement stands there, with the key of the old child if it had none and its own otherwise; nothing else that is read may rest on a node relinked or a string freed. |
| Effects.ReplaceOwned | cjson-rs-ffi/src/lib.rs:1347-1377 | In trees without references whose const keys the caller lends, it always does so. |
| Effects.OwnedApart | cjson-rs-ffi/src/convert.rs:161-196 | Trees without references always meet the condition of attaching and detaching. |
| Effects.OwnedSpans | cjson-rs-ffi/src/convert.rs:46-125 | Reading a tree without references meets exactly the nodes of its subtree. |
| Effects.ReplacedFound | cjson-rs-ffi/src/lib.rs:1366-1377 | The key that found the old child finds the replacement if and only if that had no key or a matching one. |
| Effects.ReplacedLost | cjson-rs-ffi/src/lib.rs:1366-1377 | An input on which it does not: a child found under "k" replaced by one keyed "z". |
| Effects.LookupIs | cjson-rs-ffi/src/lib.rs:438-467 | Looking up a key gives the first child that has it. |
| Effects.MatchesKey | cjson-rs-ffi/src/lib.rs:438-467 | A node matches a key in memory exactly when the tree read from it does. |
| Effects.InsertValue | cjson-rs-ffi/src/lib.rs:1315-1345 | As values, an array gains one item at the place and an object one member under the key of the child. |
| Calls.InsertThenRead | cjson-rs-ffi/src/lib.rs:1315-1345 | An array that gains an item reads with the value of the item at the place given, those from there on one further, or at the end when there is no such place; and as before for a negative place. |
| Calls.AddThenRead | cjson-rs-ffi/src/lib.rs:797-815 | An object that gains an item under a name reads with one more member, under the name up to its first NUL, or as before when the name could not be copied. |
| Calls.AddLentThenRead | cjson-rs-ffi/src/lib.rs:819-840 | The same under a name the caller lends, which cannot fail. |
| Calls.ReferThenRead | cjson-rs-ffi/src/lib.rs:855-873 | An array that gains a reference to an item reads with the value of the item at its end, or as before when the wrapper could not be allocated. |
| Calls.DetachThenRead | cjson-rs-ffi/src/convert.rs:180-196 | A list reads without the item that was detached. |
| Calls.ReplaceThenRead | cjson-rs-ffi/src/lib.rs:1347-1377 | A list reads with the replacement in the place of the item, in an object under its own key or, without one, that of the item. |
| Calls.Find | cjson-rs-ffi/src/lib.rs:438-467 | The item found is the first child whose key is the same, up to the case of letters when that does not matter. |
| Calls.CapitalsFind | cjson-rs-ffi/src/lib.rs:438-467 | "NAME" finds a child keyed "name" if and only if case does not matter. |
| Adding.NamedEffect | cjson-rs-ffi/src/convert.rs:338-365 | As read before and after, the item is the last child of the parent under the new name, and nothing else changes, provided nothing else reads the key that is freed. |
| Adding.BorrowedEffect | cjson-rs-ffi/src/lib.rs:819-840 | The same under a borrowed name. |
| Adding.ReferenceEffect | cjson-rs-ffi/src/lib.rs:842-873 | As read before and after, the reference is the last child of the parent and reads as the item does, without its key. |
| Adding.NamedOwned | cjson-rs-ffi/src/convert.rs:338-365 | In trees without references whose const keys the caller lends, naming always has that effect. |
| Adding.ReferenceOwned | cjson-rs-ffi/src/lib.rs:842-873 | For trees without references, an item that is not above the parent meets the condition of referring to it. |
| Trees.ViewsFrame | cjson-rs-ffi/src/lib.rs:527-574 | Reading a tree gives the same as long as its nodes and strings stay. |
| Trees.ShownFrame | cjson-rs-ffi/src/convert.rs:46-125 | An owned tree is unchanged by moves outside its subtree. |
| Trees.ShownViews | cjson-rs-ffi/src/lib.rs:527-574 | An owned tree can be read through its pointers. |
| Trees.GrownPut | cjson-rs-ffi/src/convert.rs:99-125 | Appending a new tree to a new tree gives a new tree whose freeing still restores the old heap. |
| Trees.GrownKeeps | cjson-rs-ffi/src/convert.rs:46-125 | While a new tree grows no old node and no old string changes. |
| Building.CutExact | cjson-rs-ffi/src/convert.rs:29-41 | Storing a value in C strings loses nothing exactly when no string and no key holds U+0000. |
| Building.ValueToCjson | cjson-rs-ffi/src/convert.rs:46-92 | NULL exactly when some allocation failed, with nodes and strings exactly as before; otherwise a fresh tree, disjoint from the rest, that reads back as the value cut at NULs, and whose freeing restores the heap. |
| Building.AppendChildren | cjson-rs-ffi/src/convert.rs:99-125 | Appends every child with its key, or stops at the first failed allocation leaving a partial tree that frees to the old heap. |
| Building.TreeStands | cjson-rs-ffi/src/convert.rs:46-125 | A node with the right type, payload and children has the value it was built from. |
| Building.CjsonToValue | cjson-rs-ffi/src/lib.rs:527-574 | Walking child and next reads the value of any tree, references and const keys included. |
| Copying.Duplicate | cjson-rs-ffi/src/convert.rs:217-263 | NULL exactly for NULL or a failed allocation, with the heap as before; otherwise a fresh copy with the same types, numbers, texts and keys, every reference and const mark cleared; no source node changes. |
| Copying.CopyValue | cjson-rs-ffi/src/convert.rs:217-263 | A deep copy has the value of its source. |
| Copying.CopyExactly | cjson-rs-ffi/src/convert.rs:217-263 | A deep copy is the same tree in another place; a shallow one is its root without children. |
| Copying.CreateNumericArray | cjson-rs-ffi/src/lib.rs:660-685 | An array of exactly the given numbers, or NULL with the heap as before. |
| CPrinting.WriteCjsonPretty | cjson-rs-ffi/src/lib.rs:195-288 | The loops over child lists append the tabbed text of the tree. |
| CPrinting.PrettyTreeMinifies | cjson-rs-ffi/src/lib.rs:195-288 | Minifying what it writes for a tree without raw nodes gives the compact text of the value of the tree. |
| CPrinting.TreeMinified | cjson-rs-ffi/src/lib.rs:195-288 | The same at any depth and before any bytes. |
| CPrinting.PrettyTreeParses | cjson-rs-ffi/src/lib.rs:195-288 | What it writes parses to the value of the tree, non-finite numbers as null, if and only if that nests within the limit. |
| CLayouts.TreeTextLaid | cjson-rs-ffi/src/lib.rs:195-288 | Told token by token: every member and closing brace starts a line behind one tab for every bracket open there, a tab follows the colon, and the elements of an array stand on one line. |
| Interface.ParseWithOpts | cjson-rs-ffi/src/lib.rs:1070-1123 | Builds a fresh tree of the parsed value and reports where it ended, or reports an error offset inside the text and changes nothing; NULL without an error exactly when an allocation failed. |
| Interface.StrictOutcome | cjson-rs-ffi/src/lib.rs:1085-1102 | Strictly, all of the text after a byte order mark spells the value, at most 1000 levels deep, and the end is that of the text; and conversely. |
| Interface.PrefixOutcome | cjson-rs-ffi/src/lib.rs:1103-1122 | As a prefix, the text up to the end spells the value up to its last byte and the rest does not carry it on; and conversely. |
| Interface.MoreRefused | cjson-rs-ffi/src/lib.rs:1085-1102 | A document followed by more than spaces is found as a prefix and refused strictly. |
| Interface.ErrorPointer | cjson-rs-ffi/src/lib.rs:63-70 | The error pointer is at the end of the text when that was unexpected, and otherwise where the error lies. |
| Interface.Print | cjson-rs-ffi/src/lib.rs:158-185 | The pretty or compact text of a tree, or nothing when it has no value or no buffer can be had. |
| Interface.PrintedParses | cjson-rs-ffi/src/lib.rs:158-185 | Either text parses back to the value of the tree and minifies to its compact text. |
| Interface.PrintedForms | cjson-rs-ffi/src/lib.rs:158-185 | Unformatted text has nothing between tokens and minifies to itself; formatted text starts every member of an object on a line of its own, behind tabs. |
| Interface.ViewedFree | cjson-rs-ffi/src/lib.rs:527-574 | The value read from a tree holds no U+0000. |
| Interface.NoBom | cjson-rs-ffi/src/lib.rs:55-61 | A text that parses does not start with a byte order mark. |
| Interface.PrintedReparsed | cjson-rs-ffi/src/lib.rs:158-185 | What is printed of a readable tree without raw nodes, with finite numbers and at most 1000 levels, is a C string that parses, strictly or as a prefix, to the value of the tree, cut nowhere. |
| Interface.PrintThenParse | cjson-rs-ffi/src/lib.rs:1070-1123 | Printing such a tree and parsing the text gives a fresh tree of the same value, or NULL exactly when some allocation failed. |
| Interface.CompareItems | cjson-rs-ffi/src/lib.rs:1043-1063 | Equal exactly when both trees have values that compare equal. |
| Interface.BuildAndRead | cjson-rs-ffi/src/convert.rs:46-125 | Building and reading back gives the value cut at NULs, so the value itself exactly when it has none. |

## Left out

- IEEE-754 rounding and the internals of formatting and parsing doubles: exact decimals stand for them, with the overflow limit as the range test, so a lexeme with more digits than a double holds keeps its exact value.
- Allocator hooks, `catch_unwind`, thread-local last error and struct layout: foreign-call plumbing.
- Type predicates, scalar constructors, getters, `cJSON_GetArraySize`, `PrintBuffered`, `PrintPreallocated`, `clamp_to_int` and the `valueint` cache: one-branch facts.
- C strings that are not valid UTF-8: every C string here is a Unicode text, read up to its first NUL.
- Raw nodes in the two lemmas about printed trees: their text is written as it stands, so it may be anything; everywhere else they are included.
- The children of a reference are opaque to the forest: they are borrowed, and calls that relink them through the reference are not modelled.
- Heaps.Heap.AttachChild: requires that the parent is not a reference, whose list it would change for another owner.
- Heaps.Heap.AttachNamedChild: requires that the parent is not a reference.
- Heaps.Heap.AddItemToArray: requires that the array is not a reference.
- Heaps.Heap.AddItemToObject: requires that the object is not a reference.
- Heaps.Heap.AddItemToObjectCS: requires that the object is not a reference.
- Heaps.Heap.AddItemReferenceToArray: requires that the array is not itself a reference.
- Heaps.Heap.AddItemReferenceToObject: requires that the object is not itself a reference.
- Heaps.Heap.InsertItemInArray: requires that the array is not a reference.
- Heaps.Heap.DetachObjectItem: requires that the object is not a reference.
- Heaps.Heap.Detach: requires that the item is in the list of the parent given; no caller passes a NULL parent with an item, and that call is not modelled.
- Effects.InsertEffect: requires that reading below the children does not lead back, through a reference, to a node of the list that changes; what such a reference then shows is not stated.
- Effects.DetachEffect: the same for the list that loses the item.
- Effects.ReplaceEffect: the same, and that no reference or const key elsewhere in the two trees reads a string the call frees, and that no key marked const moves.
- Heaps.Heap.ReplaceViaPointer: requires that no key marked const moves, since otherwise the heap has no sound state after it (`Forests.ReplaceKeepsOwnership` says so exactly), and that the replacement is detached and is not the item itself.
- Heaps.Heap.ChildAtIndex: counts without bound, where the source counts in a C int.
- Interface.Print: the buffer it returns belongs to the caller and is not part of the heap afterwards.
- Building.ValueToCjson: string fields are stored when the copy succeeded, where the source stores NULL first and then gives up; the heap after the call is the same.
- Calls that only combine modelled ones (`DeleteItemFromArray`, `ReplaceItemInObject`, `AddNumberToObject` and their like) have no member of their own.
- Error message texts, conformance scripts and fuzz targets.
