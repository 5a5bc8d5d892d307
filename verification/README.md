# A verified model of the CIF API's core algorithms

The CIF API reads, writes and manipulates Crystallographic Information
Framework data. This project models five of its algorithmic cores in Dafny and
proves what they promise, for all inputs:

1. **Writing and reading values.** The writer picks a delimiter for each
   string, folds and prefixes text fields, and prints nested lists and tables;
   the scanner and parser read them back. The main results: a text field is
   decoded to exactly what was written (`TextFieldRoundTrip`), and any other by
   the rules of the protocols (`TextProtocols`); the parser accepts exactly the
   layouts of values, with white space and comments where they are needed, and
   gives the value laid out (`ValueLayout.DocRead`, `ValueGrammar.ReadsLayouts`);
   the writer produces such layouts (`ValueWriter`) in lines that are not too
   long (`WriterLines`), and so whatever is written comes back
   (`ValueRoundTrip`), with the exact conditions under which a string breaks or
   changes.
2. **Decimal conversion of doubles.** Base 10^9 arithmetic by shifts, rounding
   to nearest with ties to even at any decimal place, and conversion to the
   nearest double (IEEE 754-2008, sections 4.3.1 and 5.12.2). The main results:
   `ToDigits.ToDigits` is correctly rounded, `ToDouble.ToDouble` is nearest and
   exact where it can be, up to the limits of the format (`DoubleRange`), and
   `DoubleRoundTrip.BinaryDecimalBinary` loses nothing.
3. **Number text and serialization.** The parser of numbers accepts exactly a
   grammar and gives the number that the characters denote (`NumberMeaning`),
   the formatters print notations of it in the form that a value needs
   (`NumberInit`), and serialized values are self-delimiting and read back.
4. **Hash table and map.** The bucket array, the chains and the
   insertion-order list stay consistent through additions, deletions and
   doublings, and the map over them is an ordered map with normalized keys.
5. **Buffer, packets and walk.** Scanning does not depend on how input
   arrives in the buffer, loop packets are the consecutive groups of the values
   read, of which exactly those are recorded that the handler's responses select
   (`LoopSelection`), and a handler-directed walk makes exactly the calls of the
   complete walk that no earlier response skips, by their places in the tree
   (`WalkLaw`).

Code that updates state in place is modelled by methods over arrays and
classes; each is proved against a function or predicate, and the laws are
lemmas about those. Text is a sequence of 16-bit units (`Units`), and a C
string is one without NUL.

Two kinds of contracts deserve a note. Where a documented property does not
hold of the code for every input, the exact condition is proved instead: a
folded, unprefixed text field that starts with a semicolon ends early
(`ValueRoundTrip.FieldRoundTrip`), line folding and prefixing lose one
trailing newline (`TextFieldRoundTrip.ContentRead`), an empty digit string is
read back as a zero, and aborts where assertions are compiled in
(`NumberInit.InitNumb`), and the work space of `to_double` is too small for
some long numbers (`ToDouble.ToDouble`). Triple-quoted strings are reported as
errors unless they are three units longer than their first line, and most fail
an assertion (`WriterColumns.TwoLinesAbort`). Where a counterexample exists it is a
lemma of its own. And where code and comments differ, the model follows the
code: inside a token the scanner counts the newline before it tests the length
of a line, so that the default callback rejects lines of 2048 characters there,
which the documentation allows and the writer writes
(`FieldLimits.LongFieldFails`, `FieldLimits.LongLineFails`); `to_double` rounds
ties down although its comments speak of the rounding mode in effect, skipping
the siblings of a save frame still walks the loops of its container, and a
handler inside a packet that returns the code for "no more packets" ends the
loop in the normal way, and skipping the siblings of an item cancels skipping
those of its packet (`LoopBody.SkippingForgotten`).

## Model

| member | source | states |
|---|---|---|
| FoldLine.Fold | src/ciffile.c:1138-1210 | the length of the next segment of a line, by all five scanning loops, is the declaratively specified fold |
| FoldLine.FoldContract | src/ciffile.c:1138-1210 | a line is kept whole iff it fits in target plus window; otherwise the cut splits no surrogate pair, leaves no semicolon in front unless prefixed, is within the window iff some cut up to there is admissible, and is refused iff there is none at all |
| FoldLine.NearestBlank | src/ciffile.c:1151-1178 | if there is a blank between the target and the end of the window, the cut is at the blank of the window nearest to the target, the lower one of two |
| FoldLine.NearestCut | src/ciffile.c:1180-1206 | if there is none, the cut is at the admissible place of the window nearest to the target, the upper one of two; failing that the last one below the window, or else the first one above it |
| FoldedLines.PiecesJoin | src/ciffile.c:1100-1121 | the segments of repeated folding concatenate to the line and none is empty |
| FoldedLines.SegmentsAreRendered | src/ciffile.c:1100-1121 | what is written of a logical line is its segments, one to a physical line, each but the last marked with a backslash |
| FoldedLines.LinesFit | src/ciffile.c:1100-1121 | without a prefix every physical line stays below 2048 units, unless every cut up to the end of the window is blocked where it begins |
| FoldedLines.GivenUp | src/ciffile.c:1102-1107 | folding fails on what is left of a line iff it is too long and has no admissible cut |
| TextFieldWriter.CutIsSafe | src/ciffile.c:1167-1206 | a cut never splits a surrogate pair and, without prefixing, never leaves a semicolon at the start of the next line |
| TextFieldWriter.WriteText | src/ciffile.c:1021-1136 | the array-overwriting writer prints header, folded and prefixed lines and delimiter as specified, or fails iff some line cannot be folded |
| TextDecoder.DecodeText | src/parser.c:2166-2362 | the in-place decoder with its rewinding output position yields the specified decoding |
| TextDecoder.ReadFirstLine | src/parser.c:2193-2275 | the first line is taken for a protocol header exactly when it announces one, and is kept otherwise |
| TextProtocols.HeaderMeaning | src/parser.c:2241-2262 | a first line announces the protocols iff it is a prefix without backslashes, then one backslash, or two behind a prefix where lines are also folded, and then only spaces and tabs |
| TextProtocols.DecodeMeaning | src/parser.c:2193-2340 | a field of several lines is its text with newlines for all terminators, unless its first line is such a header and does not start with a semicolon; then that line is left out and the others are read by it |
| TextProtocols.LineMeaning | src/parser.c:2300-2340 | each of those loses the prefix iff it has it, and where lines are folded its newline iff it ends in a backslash and then only spaces and tabs, whatever its terminator |
| TextFieldRoundTrip.HeaderAnnounces | src/ciffile.c:1046-1060 | the header written for a fold and prefix choice announces that choice to the decoder |
| TextFieldRoundTrip.BodyRead | src/parser.c:2277-2340 | unfolding and unprefixing the written lines gives back the logical lines, protected backslashes included |
| TextFieldRoundTrip.ContentRead | src/ciffile.c:1021-1136 | decoding the contents written gives the text, less one trailing newline exactly when a protocol is used |
| TextFieldRoundTrip.ContentGuarded | src/parser.c:2992-3059 | the closing delimiter occurs within the contents written iff the text is folded without prefix and starts with a semicolon |
| StringAnalysis.AnalyzeString | src/utils.c:408-596 | for every string without carriage returns, the line count, the first, last and maximum line lengths, the longest semicolon run, the text-delimiter and trailing-space flags, and the delimiter that is usable and comes before every other one that is: none, apostrophe, quotation mark, three of the one or the other, text field |
| StringAnalysis.LongestRunMeaning | src/utils.c:430-480 | the maximum reported is the length of a run that occurs, and no run is longer |
| ValueRoundTrip.DelimiterSound | src/utils.c:408-596 | a string in the delimiter recommended for it is scanned as a token with exactly that string as its value and the column after it; under a callback that aborts on overlong lines a triple-quoted string is so iff each of its lines that ends in it is short enough for the start column, and otherwise the scan fails on the limit |
| FieldLimits.LongLineFails | src/utils.c:536-556 | a string of three lines, the second of 2048 letters, for which a triple quote is recommended and on which the default callback makes the scanner fail |
| TokenRoundTrip.FieldScanned | src/parser.c:2992-3059 | a text field is scanned up to exactly its closing delimiter, with any line terminator in it, under a strict callback iff none in it is beyond column 2047 |
| TokenRoundTrip.DelimThrough | src/parser.c:2842-2910 | a quoted string is scanned up to exactly its closing quote, and so is the column |
| TokenRoundTrip.TripledScanned | src/parser.c:2925-2986 | a triple-quoted string is scanned up to exactly its closing delimiter, under a strict callback iff no newline in it is beyond column 2047 |
| TokenRoundTrip.BareScanned | src/parser.c:2748-2834 | a bare string is scanned up to exactly the white space or closing bracket that follows it, or the white space if it looks like a block or frame header |
| TokenForms.RunEnded | src/parser.c:2677-3059 | any scanning loop that ends has gone through its text unit by unit, and ended with it, before a unit or after one |
| TokenForms.TokenGap | src/parser.c:2368-2470 | a token comes behind white space and terminated comments only, which start with white space unless adjacency is allowed, or are none before a closing bracket |
| TokenForms.ValueForm | src/parser.c:2748-2834 | what is taken for a bare value is valid text without white space and brackets, not reserved, not started by a semicolon in the first column, and followed by white space or a closing bracket |
| TokenForms.QuotedForm | src/parser.c:2842-2986 | what is taken for a quoted string is valid text without its delimiter, nor a line terminator if single, between delimiters; it is a key iff a colon follows |
| TokenForms.FieldForm | src/parser.c:2992-3059 | what is taken for a text field is valid text without a semicolon behind a terminator, between its delimiters; it is a key iff a colon follows |
| Characters.CleanMeaning | src/parser.c:636-700 | the text let pass is exactly the UTF-16 form of code points other than control characters, surrogates, the byte-order mark and non-characters |
| Characters.ColumnCounts | src/parser.c:636-700 | within a line the column counts code points |
| Columns.WithinMeaning | src/parser.c:649-716 | the column condition says that each terminator is at most so many characters behind the start of its line |
| LineLimit.RunStrict | src/parser.c:703-716 | any scanning loop under a strict callback has the outcome of the lenient one iff no terminator among the units it goes through is beyond column 2047, and otherwise fails on the limit |
| LineLimit.WsStrict | src/parser.c:2640-2675 | the same for white space, with a limit of 2048 |
| LineLimit.ReadStrict | src/parser.c:1777-2155 | reading any input under the default callback is reading it with overlong lines let pass, or fails on an overlong line |
| ValueLayout.DocRead | src/parser.c:1777-2155 | any layout of a value, with arbitrary white space, comments and any nesting, parses to that value, leaves what follows it and ends at the computed column; under a strict callback iff no line that ends in the layout is overlong, and otherwise the parse fails on the limit |
| ValueLayout.ItemsRead | src/parser.c:1777-1865 | the elements of a list are read in order up to its closing bracket, under a strict callback iff no line that ends in them is overlong |
| ValueLayout.EntriesRead | src/parser.c:1867-2051 | the entries of a table are read in order, a repeated key taking the place of the earlier one, under a strict callback iff no line that ends in them is overlong |
| ValueGrammar.ReadsLayouts | src/parser.c:1777-2155 | a value is read from some input, and this is left, iff the input is a layout of that value with this behind it and, under a strict callback, no line that ends in it is overlong; whatever is read is so |
| ValueGrammar.ItemsInverse | src/parser.c:1777-1865 | whatever is read as the rest of a list is a layout of its elements, each behind the white space it needs, and a closing bracket |
| ValueGrammar.EntriesInverse | src/parser.c:1867-2051 | whatever is read as the rest of a table is a layout of its entries, each a quoted key, a colon and a value behind it, and a closing brace |
| ValueWriter.Writer.WriteChar | src/ciffile.c:952-1019 | a string is printed as a layout of it in the form that the analysis prefers; it succeeds iff the form is bare or quoted, or a text field that is allowed and can be folded, or a triple-quoted string at least three units longer than its first line for which no assertion fails; and the column after it |
| ValueWriter.Writer.WriteList | src/ciffile.c:841-876 | a list is printed as a layout of exactly its elements; it succeeds iff each of them can be written from the column that those before it lead to, and the last such column is the one after it |
| ValueWriter.Writer.WriteTable | src/ciffile.c:878-950 | a table is printed as a layout of exactly its entries and original keys; it succeeds iff braces, keys, colons and values can each be written from the column that leads to it, where a colon, and a number or an opening brace behind one, may not be wrapped |
| ValueWriter.Writer.WriteItem | src/ciffile.c:777-839 | any value is printed as a layout of it, separated from what precedes it; it succeeds iff it can be written from the column it starts at, tables and failing assertions included; the column after it; and all lines keep within 2048 units, if its text fields and numbers do |
| WriterColumns.ItemAnywhere | src/ciffile.c:777-1005 | without tables and assertions, a value can be written from some column iff it can be from any, and that is iff all its strings can and no number's text is empty |
| WriterColumns.TwoLinesAbort | src/ciffile.c:1237-1259 | a string of two lines in triple quotes fails an assertion where these are compiled in, and is written where they are not |
| WriterColumns.OneLineNeverTripled | src/ciffile.c:1237-1259 | writing a string without newlines in triple quotes is always reported as an error |
| WriterLines.FormFits | src/utils.c:486-556 | a string recommended to be bare, quoted or triple-quoted leaves room for its delimiters in each of its lines |
| WriterLines.UnmarkedFieldFits | src/ciffile.c:975-1005 | a text field without protocols keeps within lines of 2048 units |
| ValueRoundTrip.RoundTrip | src/ciffile.c:777-1005 | whatever layout shows a value is parsed back to that value, numbers as unquoted text, keys in order; under a strict callback iff no line that ends in the layout is overlong |
| ValueRoundTrip.WriteThenRead | src/ciffile.c:777-1005 | writing a value and parsing the characters written: the writer succeeds iff the value can be written from its column, and then exactly the value is read, at any position and whatever follows, unless the reader is strict and a line that ends in it is overlong |
| ValueRoundTrip.FieldRoundTrip | src/ciffile.c:952-1005 | a string printed as a text field is read back iff it is not both folded without prefix and started by a semicolon, and, under a strict callback, no line of the field as written has more than 2047 characters, counting prefix, backslash and opening semicolon |
| FieldLimits.SemicolonLineFails | src/ciffile.c:975-1005 | a semicolon and 2048 letters are written as a text field and not read back, under any callback |
| FieldLimits.LongFieldFails | src/ciffile.c:975-1005 | a line of 2048 letters after a short one is written as a text field without protocols, and the default callback makes the parser fail on it |
| FieldLimits.FoldedFieldFits | src/ciffile.c:1100-1121 | a field folded without prefix has no line too long for a strict callback, nor for the writer, unless for the length of a whole line no cut is admissible |
| ValueRoundTrip.ReadsIdentical | src/ciffile.c:841-1005 | the value parsed from what was written is identical to the one written iff it contains no number, no string loses its quoting or a trailing newline, and, under a strict callback, no line that ends in it is overlong |
| ScannerBuffer.Scanner.MakeRoom | src/parser.c:3128-3165 | moving the token to the front or doubling the buffer keeps the token, its offsets and the unread input, and makes room for the minimum fill |
| ScannerBuffer.Scanner.GetMoreChars | src/parser.c:3128-3191 | a refill keeps the token and the input still to be scanned, and fails only at the end of the input |
| ScannerBuffer.Scanner.Scan | src/parser.c:2677-2834 | a scanning loop over any sequence of refills has the outcome of the same loop over the whole input |
| ScannerBuffer.Scanner.ScanText | src/parser.c:2992-3059 | value, position, line and column after a text field do not depend on refills |
| ScannerBuffer.Scanner.ScanTripleDelimString | src/parser.c:2925-2986 | value, position, line and column after a triple-quoted string do not depend on refills |
| ScannerBuffer.Scanner.ScanBare | src/parser.c:2677-2834 | value, position, line and column after an unquoted token do not depend on refills |
| ScannerBuffer.Scanner.ScanDelimString | src/parser.c:2842-2910 | value, position, line and column after a quoted or triple-quoted string do not depend on refills, even between its opening quotes |
| Bignum.ShiftRight | src/value.c:1199-1223 | a pass of long division divides by exactly 2^shift, keeps digits below 10^9 and all intermediates in 64 bits, and runs over the end of the array iff the number is not divisible |
| Bignum.ShiftLeft | src/value.c:1225-1244 | a pass of long multiplication multiplies by exactly 2^shift, with no carry out, digits below 10^9 and intermediates in 64 bits |
| DoubleScaling.PrefixDivisible | src/value.c:1206-1217 | enough decimal places make a prefix of the number divisible by the next shift, because each digit contributes nine factors of two |
| DoubleScaling.LayOut | src/value.c:1157-1244 | the work space holds every decimal digit of the double, integer and fraction, for the whole range of the format |
| Rounding.RoundsToUnique | src/value.c:1088-1126 | rounding to nearest with ties to even has one result |
| Rounding.CompareHalf | src/value.c:1070-1074 | the tail is less than, equal to or greater than half a unit, by its first digit and whether all further digits are zero |
| Rounding.RoundIt | src/value.c:1088-1126 | the rounded value is the nearest, ties to even |
| DigitRounding.RoundDigit | src/value.c:1255-1280 | rounding inside a base 10^9 digit rounds the whole number at that decimal place |
| DigitPrinter.Carry | src/value.c:1286-1296 | carries through any run of full digits keep the number, and stop before the first digit |
| DigitPrinter.PrintDigits | src/value.c:1311-1332 | the decimal digits printed denote the number, without leading zeros |
| ToDigits.RoundAndPrint | src/value.c:1255-1347 | the digits of the laid-out number rounded at a place, through carries and truncation, and when no digit is left |
| ToDigits.ToDigits | src/value.c:1145-1350 | for every double and every accepted scale, the digit string is the double times 10^scale rounded half to even, without a leading zero; it is empty iff the scale is not a multiple of nine, the double rounds to zero, and it is at least one at the next such multiple |
| ToDigits.ThreeEmptied | src/value.c:1336-1344 | 3.0 at scale -1 is such a double |
| Log2.Floor32 | src/value.c:975-998 | the branch-free macro is the floor of the binary logarithm of every non-zero 32-bit integer |
| Log2.ShiftWidth | src/value.c:1002-1011 | the shift limit derived from it for base 10^9 is 28 |
| BinaryExponent.EstimateFromLogs | src/value.c:1490-1495 | logarithms of the first digit and of one more, each exact or one too small at a power of two, bound the shifted number between 2^51 and 2^53 |
| BinaryExponent.EstimateTolerance | src/value.c:1490-1495 | the shift from any logarithm brings the number between 2^51 and 2^53 iff that logarithm is the floor of the number's own, or one more |
| DecimalInput.Trim | src/value.c:1354-1384 | the digits kept run from the first to the last non-zero one, at most 2048, with their places |
| DecimalInput.KeptValue | src/value.c:1362-1384 | nothing but zeros is dropped from a string of up to 2048 significant digits |
| DecimalInput.LoadDecimal | src/value.c:1514-1545 | the base 10^9 digits loaded hold exactly the decimal number as fixed point |
| ToDouble.TakeSignificand | src/value.c:1597-1620 | after at most one more shift the integer part is a full significand, or there is no fraction |
| ToDouble.RoundToInt | src/value.c:1139-1143 | the significand is rounded to nearest with ties down |
| ToDouble.ToDouble | src/value.c:1353-1627 | zero and underflow exactly in their ranges, overflow above the largest place or iff the rounded significand makes 2^1024 or more; the shift overruns the work space iff it takes more bits than there are decimal places and factors of two; otherwise ldexp is given a significand and exponent nearest to the decimal number, or equal to it |
| ToDouble.PackedMeaning | src/value.c:1619-1626 | what is returned is that significand and exponent as a number of the format, unless it is 2^1024 or more, which overflows, or has places below 2^-1074 |
| DoubleRange.LdexpMeaning | src/value.c:1626 | numbers from 2^1024 on are refused, and no others; what has places below 2^-1074 is rounded to them half to even |
| DoubleRange.DoubleKept | src/value.c:1626 | a double, normal or subnormal, passes unchanged, whatever significand and exponent it is given with |
| ToDouble.NoneCloser | src/value.c:1353-1627 | no double of any exponent is closer to the decimal number than the one delivered |
| ToDouble.ExactIfRepresentable | src/value.c:1353-1627 | a decimal number that a double represents is delivered exactly |
| ToDouble.ShortFits | src/value.c:1397-1447 | strings of up to 2020 significant digits never overrun the work space |
| ToDouble.OverrunExists | src/value.c:1397-1447 | one, 2046 zeros and one at scale 1740 overrun the work space, although they are in the normal range |
| FactorsOfTwo.TwosMeaning | src/value.c:1551-1571 | a number is divisible by a power of two iff it has that many factors of two |
| DoubleRoundTrip.BinaryDecimalBinary | src/value.c:2267-2280 | a double printed at a scale of at least its number of binary fraction digits reads back as the same double |
| NumberGrammar.Sound | src/value.c:1975-2139 | whatever is parsed as a number is the print of a notation of the grammar |
| NumberGrammar.Complete | src/value.c:1975-2139 | every notation of the grammar is parsed back |
| NumberGrammar.PrintInjective | src/value.c:1975-2139 | different notations have different texts |
| NumberParser.ParseNumb | src/value.c:1975-2139 | of exactly the texts of the grammar, the number that the characters denote: sign, value, place of the last digit and uncertainty, for all signs and exponents; and an error for all others |
| NumberMeaning.ParsedDenotes | src/value.c:2030-2055 | the digits times the power of ten of the scale are the rational number that whole part, fraction and exponent denote, and the uncertainty counts units of the last place |
| NumberMeaning.DenotesOne | src/value.c:1975-2139 | some characters denote one number only |
| NumberParser.SkipZeros | src/value.c:2018-2022 | superfluous leading zeros are dropped, across the decimal point, but never the last digit |
| NumberFormatter.FormatDecimal | src/value.c:859-907 | the decimal notation of a number, or an error iff it is longer than a line |
| NumberFormatter.FormatSci | src/value.c:909-970 | the scientific notation of a number, or an error iff it is longer than a line; with assertions compiled in it aborts iff there are no digits |
| NumberFormatter.DecimalReadBack | src/value.c:859-907 | decimal notation is parsed back to the same sign, scale and uncertainty, and to the same digits iff there are any, otherwise to a zero |
| NumberFormatter.SciReadBack | src/value.c:909-970 | scientific notation is parsed back to the same sign, scale and uncertainty, and to the same digits iff there are any, otherwise to a zero |
| NumberInit.InitNumb | src/value.c:2173-2250 | a number made from doubles holds correctly rounded digits and uncertainty, and its text parses to the same number iff the digits are not empty; the text has an exponent iff the scale is negative or more zeros than allowed would lead, and otherwise exactly as many digits behind the point as the scale; it is refused iff it is longer than a line, and aborts iff the digits are empty, an exponent is needed and assertions are compiled in |
| NumberInit.RoundedUnique | src/value.c:2182-2204 | a double and a scale have one string of digits that is so rounded |
| SerializedForm.ReadBack | src/value.c:205-289 | a value is read back from its bytes, whatever follows, and exactly its own bytes are consumed |
| SerializedForm.SelfDelimiting | src/value.c:205-289 | no value's bytes are a proper prefix of another's |
| Serializer.WriteBuffer.Write | src/value.c:348-356 | bytes are copied to the position, over what is there, and position and limit advance |
| Serializer.WriteBuffer.WriteValue | src/value.c:205-229 | the serialized form of a value is appended |
| Serializer.WriteBuffer.WriteTable | src/value.c:719-748 | the serialized form of a table's entries, each behind its flag, in order |
| Serializer.ReadBuffer.Read | src/value.c:1694-1709 | exactly the bytes asked for, or exactly all there are |
| Serializer.ReadBuffer.DeserializeValue | src/value.c:247-289 | the value at the position and the bytes left over, or failure, as the form specifies |
| Serializer.ReadBuffer.DeserializeTable | src/value.c:806-857 | the entries up to the end flag, in order |
| Buckets.CoversPush | uthash/uthash.h:625-637 | a new item at the front of its chain keeps each item in the bucket of its hash value, once |
| Buckets.CoversRemove | uthash/uthash.h:639-649 | an item taken out of its chain leaves every other item in its bucket, once |
| Buckets.TotalIs | uthash/uthash.h:287-315 | the counts of the buckets sum up to the number of items |
| BucketExpansion.LinkIn | uthash/uthash.h:625-631 | linking an item in at the front keeps all chains well linked |
| BucketExpansion.MoveAll | uthash/uthash.h:694-714 | redistribution keeps the set of items, links and counts every new chain, and counts the items in excess of the ideal length |
| ItemList.Unlink | uthash/uthash.h:237-251 | the list without an item is well linked, and its head is found |
| ItemList.UnlinkChain | uthash/uthash.h:639-649 | the chain without an item is well linked, and its head is found |
| HashTable.HashTable.ExpandBuckets | uthash/uthash.h:680-726 | expansion doubles the bucket count, keeps items and order, sets the ideal chain length to the ceiling of their ratio and the excess to the sum over all buckets, and gives up expanding after two ineffective ones |
| HashTable.HashTable.Add | uthash/uthash.h:182-205 | an item with a new key is appended to the list and put in its bucket, and the table stays consistent, expanded or not |
| HashTable.HashTable.Find | uthash/uthash.h:103-114 | the item with the key, or none iff no item has it |
| HashTable.HashTable.Delete | uthash/uthash.h:224-257 | exactly that item is gone, the order of the others is kept, and the table stays consistent |
| HashTable.ChainTotal | uthash/uthash.h:287-337 | buckets and list agree on the number of items |
| CifMap.CifMap.SetItem | src/map.c:139-238 | setting a key updates the entry of its normal form in place, with the latest spelling, or appends one; an invalid key changes nothing |
| CifMap.CifMap.RetrieveItem | src/map.c:246-282 | the value of the entry with that normal form, removed if so asked, or the code for no such item |
| CifMap.CifMap.GetKeys | src/map.c:54-77 | the original keys in the order of the entries |
| CifMap.LookupAfterSet | src/map.c:139-238 | setting a key changes what is found for its normal form, and for no other |
| CifMap.OrderAfterSet | src/map.c:139-238 | setting a key keeps all keys in place, appends at most one, and reports the latest spelling |
| LoopBody.ParseLoopBody | src/parser.c:1544-1775 | for any characters and any handler, the packets recorded, the calls made and the code or error are those of the stream of values scanned and parsed |
| LoopBody.RecordedInOrder | src/parser.c:1544-1775 | whatever the responses, the packets recorded are some of the consecutive groups of the values, whole and in order, and items are handed out in order, each once |
| LoopBody.SkippingLasts | src/parser.c:1617-1690 | once the siblings of a packet are to be skipped, no further packet of the loop is recorded, if no response to an item is to skip its siblings |
| LoopBody.SkippingForgotten | src/parser.c:1617-1655 | with such a response to an item, a packet is recorded in spite of the response to skip the siblings of an earlier one |
| LoopSelection.SelectedPackets | src/parser.c:1590-1745 | if no response to an item skips siblings or ends the loop: a packet is opened iff no earlier response to a start or end skips siblings, closed iff it is opened and the response is not to skip it or to end, and recorded iff it is closed with the response to continue; the calls are those of these starts, items and ends in order; and the loop ends early iff a response ends it |
| LoopSelection.GroupPackets | src/parser.c:1590-1745 | the packets so opened and closed are the consecutive groups of the values |
| LoopBody.LayoutToPackets | src/parser.c:1544-1775 | values laid out with any white space and comments come out as packets in order, the last filled up with unknown values |
| LoopPackets.Conservation | src/parser.c:1544-1775 | the packets in order are the values in order, followed by unknown values only |
| LoopPackets.CountRoundedUp | src/parser.c:1544-1775 | the number of packets is the number of values over the number of columns, rounded up |
| Walk.Walker.WalkPacket | src/cif.c:771-796 | a packet's calls and result are those of its part of the script |
| Walk.Walker.WalkLoop | src/cif.c:721-769 | a loop's calls and result are those of its part of the script, packetless loops included |
| Walk.Walker.WalkContainer | src/cif.c:628-688 | a block's or frame's calls and result are those of its part of the script |
| Walk.Walker.Walk | src/cif.c:562-622 | for any handler, the calls made and the code returned are those of the script run by the skipping machine, and obey the law of the walk |
| WalkScript.CompleteWalk | src/cif.c:562-622 | with responses to continue only, all calls are made in order and the walk succeeds iff every loop has a packet |
| WalkScript.RunPrunes | src/cif.c:562-622 | whatever the responses, the calls made are the complete sequence with some left out |
| WalkScript.NothingAfterEnd | src/cif.c:562-622 | no handler is called after a response that ends the walk, CIF_FINISHED outside packets included, and the walk returns OK, the last response, or the empty-loop error |
| WalkLaw.WalkLawful | src/cif.c:562-801 | a call of the complete walk is made iff no earlier call made has a response that skips it: skipping the current element at its start skips all in it and its end; skipping siblings all that is left of the parent, but for a frame only further frames; CIF_FINISHED in a packet all that is left of the loop but its end; and a response that ends the walk everything; the code is that of the call that ends the walk, or OK |
| WalkLaw.LawDetermines | src/cif.c:562-801 | by that law the responses determine the calls made and the code |

## Left out

- SQLite storage and transactions, ICU conversion and normalization, encoding detection, streams and locales: a walk is over an immutable tree, keys are normalized by an arbitrary total function, and text is a sequence of units.
- CR LF compaction in `get_more_chars`: the scanner is fed input without such pairs (`src/parser.c:3193-3237`).
- CIF 1 mode, extra white-space and end-of-line characters, data names, loop headers, and containers in the parser; error recovery other than for partial packets: an error ends the scan, except that overlong lines may be let pass.
- The growth of the write buffer (`src/value.c:1654-1692`): the buffer is an unbounded byte sequence.
- Memory exhaustion, partial writes to the output stream, and frees.
- Directed rounding modes, and the fallback of `to_digits` for scales beyond those accepted.
- `convert_to_standalone` (`src/map.c:83-137`), packets with repeated names, and `skip_depth` outside loop bodies.
- Sorting and the other hash functions of uthash: the hash function is arbitrary, and given with the item.
- ToDouble.ToDouble: the computed logarithms may be one too small at exact powers of two, and are taken to be exact floors otherwise; what happens after an access beyond the work space is not modelled.
- ValueWriter.Writer.WriteItem: item names, which are written on a line of their own before the value, are left out.
- NumberFormatter.FormatSci: the width of the exponent is its number of decimal digits, which the code derives from a floating-point logarithm.
- NumberParser.ParseNumb: exponents are unbounded integers, without the overflow of a C int.
- SerializedForm.ReadBack: integers are little-endian with the widths of a 64-bit platform, kinds outside the enumeration are refused, and lengths are limited to 2^56.
- HashTable.HashTable.Add: bucket counts are unbounded integers, without 32-bit wrap-around.
- ValueWriter.Writer.WriteTripleQuoted: where the code tests a unit beyond the string, the column and whether the assertion about it fails are left open; such a write is never successful.
- StringAnalysis.AnalyzeString: strings with carriage returns are left out, because the first line's length is not recorded when its terminator is CR LF.
- LoopBody.ParseLoopBody: errors other than a partial packet and an empty body end the loop, and storing a packet does not fail.
- FoldedLines.LinesFit: nothing is claimed of prefixed lines, whose target length is not reduced for the prefix.
- LoopSelection.SelectedPackets: item responses that skip siblings or end the loop are covered by `LoopBody.RecordedInOrder` only.
- Walk.Walker.Walk: the handler is a function of the calls made so far; a handler that changes the CIF is not modelled.
