# Verified model of the JSON library, the rate limiter and the dynamic strings of ocgeo_fdw

This project models the three stateful components that the foreign data wrapper ocgeo_fdw is built on, and
proves what they promise.

**cJSON.** The printer is a class around a byte buffer that grows on demand (`PrintBuffer.dfy`); the parser is a class
around a cursor and a depth counter that builds doubly linked node lists (`ParseBuffer.dfy`). Nodes are heap objects
with their real links, string blocks and ownership flags (`Tree.dfy`, `Lists.dfy`, `TreeEdits.dfy`, `Building.dfy`),
and every allocation goes through a heap that may refuse any request (`Allocation.dfy`). What the loops compute is
stated by pure definitions: a value type with its printed text (`Json.dfy`) and a parser specification
(`ParseSpec.dfy`, and `ParseStop.dfy` for where it stops). Numbers are doubles in their binary form (`Doubles.dfy`),
printed and read digit by digit as "%1.15g", "%1.17g" and `strtod` do, rounding to nearest (`Numbers.dfy`).
What such definitions come to is stated apart from them, by grammars that say which texts there are and what they mean
(`Spelling.dfy`, `Grammar.dfy`) and proofs that the code reads exactly those: `StringGrammar.dfy`, `NumberGrammar.dfy`,
`DocGrammar.dfy`, and `FaultGrammar.dfy` for the texts that do not parse. `StringText.dfy`, `PrettyText.dfy`,
`ShortDigits.dfy`, `NumberLayout.dfy` and `Rounding.dfy` do the same for the printed text: its escapes, its white space
and its numbers. `RoundTrip.dfy` proves that parsing undoes printing, `ParseResult.dfy` what a parse can give. `Lifetime.dfy`,
`Duplicate.dfy` and `Compare.dfy` free, copy and compare trees, and `Documents.dfy` runs parse, edit, print and delete
together; `Minify.dfy` runs in place over an array, `MinifyPrint.dfy` relates it to the two print formats and
`MinifyParse.dfy` to the parser; `Unicode.dfy` and `StringScan.dfy` hold the facts about escapes.

**The rate limiter.** `RateLimiter.dfy` has the token bucket as a state machine with the C arithmetic (division
towards zero, a `long` cut to an `int`) and the theorems about whole runs; `Counters.dfy` has the shared state and
the loop that reads the clock and sleeps.

**sds.** `SdsLayout.dfy` has the five header layouts down to their bytes, `Sds.dfy` the class whose block and header
type change as the string grows. `SdsSplit.dfy` and `SdsTokens.dfy` split, `SdsJoin.dfy` joins and bounds the
reallocations, `SdsQuote.dfy` quotes and lexes, `SdsNumber.dfy` prints integers. `SdsArgs.dfy` and `SdsFaults.dfy` say
which lines split into which arguments and which are refused, `SdsRepr.dfy` what a quotation looks like.

Where a promise turned out not to hold as it stands, the project says when it does:

* Printed text parses back if and only if the value is nested at most 1000 deep (`RoundTrip.PrintThenParse`); every
  depth occurs, and beyond 1000 the print does not parse (`RoundTrip.TooDeep`). Numbers come back bit for bit, but NaN
  and the infinities are printed as null and come back as that (`RoundTrip.PrintThenParseAny`).
* A number is printed with fifteen digits if and only if some decimal of at most fifteen digits is rounded to it
  (`ShortDigits.ShortExactly`).
* Minifying a formatted print gives the unformatted print if and only if no key ends in a backslash and no string
  does unless only closing brackets follow it (`MinifiedPrint.MinifyCommutesWithFormatting`); otherwise the spaces
  inside a later string can be lost (`MinifiedPrint.MinifyDropsSpaces`). Any text that parses keeps its value when
  minified as long as no quote in it stands behind an escaped backslash (`MinifiedParse.MinifyKeepsValue`).
* "At most max_reqs_sec requests per second" holds for no configured limit (`RateLimiter.OverTheLimit`): the largest
  number in less than a second is M + 1000 / period, for every limit, and that is 2M where M divides 1000.
* The rate bound of a run holds, however many requests crowd behind any request of it, if and only if at every request
  the tokens and the periods that have passed, cut to 32 bits, are not negative (`RateLimiter.RateBoundExactly`).
  Behind any idle gap that makes them negative, M + 1 requests can be admitted at one instant; for every limit a new
  bucket left alone for 2^31 periods is such a gap (`RateLimiter.OverlongIdleReached`).
* `cJSON_PrintBuffered` with size 0 and no `realloc` hook copies one byte from beyond its empty block
  (`Printing.PrintBuffered`, output `overread`).
* `cJSON_Compare` finds a tree equal to its own copy if and only if no part of it is invalid, no number is NaN and
  members with the same key always carry equal values (`Comparison.CompareWithCopy`).

Bytes are integers from 0 to 255, C strings are byte sequences without NUL, and a text is a sequence whose only NUL
is its last byte. `dafny verify dfyconfig.toml` checks everything.

## Model

| member | source | states |
|---|---|---|
| RoundTrip.PrintThenParse | cJSON.c:1222-1727 | parsing the text of any printable value of finite numbers and NUL-free strings, in either format and either end mode, gives the value back and stops at the terminator, if and only if its depth is at most 1000 |
| RoundTrip.PrintThenParseAny | cJSON.c:484-1727 | with any numbers the value comes back with null for those JSON has no text for, so unchanged if and only if all are finite |
| RoundTrip.TooDeep | cJSON.c:1351-1360 | for every n there is a value nested n deep whose print parses if and only if n is at most 1000 |
| RoundTrip.ValueRoundTrip | cJSON.c:1222-1348 | the same at any offset and depth of any text that contains the printed value |
| RoundTrip.ItemsRoundTrip | cJSON.c:1351-1504 | the array loops undo each other, failing exactly where an item exceeds the depth limit |
| RoundTrip.MembersRoundTrip | cJSON.c:1507-1727 | the object loops undo each other, in both formats with their indentation |
| RoundTrip.StringRoundTrip | cJSON.c:708-956 | `parse_string` undoes the escaping of `print_string_ptr` for every byte string |
| RoundTrip.NumberRoundTrip | cJSON.c:276-547 | the text of every finite double, in whatever text it stands, is parsed back to that double, the sign of zero included |
| DocGrammar.ParsesExactly | cJSON.c:1010-1613 | a text parses to a value if and only if it is a document of the grammar (mark, white space, literals, numbers of at most 63 bytes, strings, arrays, objects) nested at most 1000 deep with that meaning |
| DocGrammar.TextRead | cJSON.c:1010-1087 | every document of the grammar is read with its meaning, to the end of the text, if and only if it is nested at most 1000 deep |
| DocGrammar.TextFound | cJSON.c:1010-1087 | every text that is read is one |
| DocGrammar.PrefixRead | cJSON.c:1039-1048 | where the end is not required, a document is read whatever follows it that is no part of a number |
| DocGrammar.EndRequired | cJSON.c:1039-1048 | where it is, the same value is read if and only if only white space follows |
| DocGrammar.DocRead | cJSON.c:1222-1613 | the same for a value at any offset and depth |
| DocGrammar.DocOf | cJSON.c:1222-1613 | and whatever is read there is a value of the grammar |
| StringGrammar.HexValueExactly | cJSON.c:557-571 | a hex digit in either case has its value, and no other byte has one |
| StringGrammar.Hex4Exactly | cJSON.c:550-583 | four hex digits in any mix of cases give their code unit, any other four bytes 0 |
| StringGrammar.EveryUtf16Spelling | cJSON.c:587-705 | every scalar value, its one or two code units spelled in any mix of cases, is read as its UTF-8 form |
| StringGrammar.FindCloseExactly | cJSON.c:721-741 | the closing quote is the first one behind an even number of backslashes |
| StringGrammar.StringRead | cJSON.c:708-834 | every string made of bytes, two-byte escapes (the slash too), code units and surrogate pairs is read as what these mean |
| StringGrammar.StringOf | cJSON.c:708-834 | and nothing else is read as a string |
| StringGrammar.TidyBody | cJSON.c:708-834 | among them are all strings of RFC 8259 |
| NumberGrammar.NumberRead | cJSON.c:276-350 | every numeral of at most 63 bytes (sign, digits, point, places, exponent) is read whole, as the double nearest to what it denotes |
| NumberGrammar.NumberOf | cJSON.c:276-350 | and nothing else is read as a number |
| FaultGrammar.TextStops | cJSON.c:1010-1087 | for every way into a text, past whole items and members, and every fault at its end (no value, a string or name left open or with a bad escape, a missing comma, colon, name or bracket, a list too deep) nothing is parsed and the error position is at the fault, one byte further for an open string or a missing name |
| FaultGrammar.EndStops | cJSON.c:1042-1048 | where the end is required and something else follows the value, the error position is there |
| FaultGrammar.PathStops | cJSON.c:1351-1613 | a value inside others that is not read keeps them from being read, and the position is passed on unchanged |
| FaultGrammar.FaultStops | cJSON.c:1222-1613 | each fault, wherever a value is expected |
| Numbers.StrtodOf | cJSON.c:305-330 | the conversion reads all of a number in any of the layouts of "%g" and gives the double nearest to what its digits, point and exponent denote |
| Numbers.GTextReads | cJSON.c:502-515 | a number printed with p significant digits, trailing zeros dropped, denotes its p-digit rounding and reads back as the double nearest to that |
| Numbers.PrintedReads | cJSON.c:501-516 | the printed text of every finite double reads back as that double, bit for bit |
| ShortDigits.ShortExactly | cJSON.c:505-515 | the printed text denotes a decimal of at most 15 digits if and only if some decimal of at most 15 digits is rounded to the number |
| ShortDigits.ShortExact | cJSON.c:505-515 | and for every number that is not subnormal the text then denotes that very decimal: what was read from at most 15 digits is printed as the same decimal |
| ShortDigits.FormatIsNearest | cJSON.c:505-515 | no decimal of at most p digits is nearer to a number than the one printed with precision p |
| Rounding.LastDigitEven | cJSON.c:505-515 | and where another is as near, the last of the p digits printed is even |
| NumberLayout.FormatShape | cJSON.c:505-515 | with precision p an exponent stands exactly where the printed decimal is below 10^-4 or at least 10^p; no zero leads or ends the digits, no point stands alone, the exponent has a sign and at least two digits |
| NumberLayout.PrintedShape | cJSON.c:489-522 | the text of a number other than zero in full: p is 15 where 15 digits are enough and else 17, of all decimals of at most p digits it denotes the nearest, and it is laid out in that way |
| Numbers.NumberTextBytes | cJSON.c:489-522 | the text has at most 24 bytes, so the 26 of the buffer suffice, and only bytes the parser takes for a number |
| Doubles.SeventeenNear | cJSON.c:514-515 | 17 significant digits of any double, subnormal ones and powers of two included, lie closer to it than half way to its neighbours |
| Doubles.RoundsBack | cJSON.c:511-515 | a real number that close to a double is rounded to it |
| Doubles.RoundNearest | cJSON.c:322 | no double is nearer to a real number than the one it is rounded to |
| Rounding.TiesToEven | cJSON.c:322 | and of two equally near ones it is the one with the even significand |
| Rounding.RoundsToInfinity | cJSON.c:322 | numbers from half a unit above the largest double on, and no others, are rounded to infinity |
| Doubles.SaturatedFits | cJSON.c:332-344 | `valueint` is the number rounded towards zero where that is an `int`, and the nearest end of the range for any other |
| RoundTrip.RenderNulFree | cJSON.c:1277-1348 | no printed text contains a NUL, so a `strlen` finds its end |
| StringText.EscapeIsStrict | cJSON.c:837-956 | the text of any bytes is written by the rules of RFC 8259, hex digits in lower case, and means these bytes |
| StringText.EscapeIsShortest | cJSON.c:837-956 | and no text that RFC 8259 allows for them is shorter |
| PrettyText.FormattedIsPretty | cJSON.c:1445-1727 | the formatted print of any value is the unformatted one read byte by byte: outside strings an opening brace is followed by a line end, a member's line begins with a tab for every bracket open, commas are followed by a line end in objects and a space in arrays, colons by a tab |
| PrettyText.ValuePretty | cJSON.c:1445-1727 | the same for a value at any depth inside any text |
| ParseResult.ParsedShape | cJSON.c:1222-1613 | whatever text parses gives a printable value of NUL-free strings, nested at most 1000 deep |
| ParseResult.ParsePrintParse | cJSON.c:1010-1727 | parse, print, parse is the identity for texts whose numbers are finite, in both formats |
| ParseResult.ParsableExactly | cJSON.c:1010-1613 | the values with finite numbers that some text parses to are exactly these |
| Unicode.Utf8RoundTrip | cJSON.c:587-705 | the UTF-8 bytes of every scalar value decode, by the strict table of section 4 of RFC 3629, to that value |
| Unicode.Utf8Unique | cJSON.c:587-705 | every well-formed sequence is the encoding of its scalar value, so there is no shorter or other one |
| Unicode.Utf16RoundTrip | cJSON.c:587-652 | the one or two escapes of any scalar value (section 2.1 of RFC 2781) are read back as that value, with their length |
| StringScan.EscapesInStretch | cJSON.c:721-741 | the sizing scan begins at most one escape in every two bytes, in step or not |
| StringScan.PieceFits | cJSON.c:721-812 | one step of the filling scan keeps bytes written plus escapes counted by the sizing scan within bytes consumed, also when the scans are out of step |
| StringScan.DecodedFits | cJSON.c:721-812 | so the filling scan never writes more than the sizing scan allowed for, on every input |
| StringScan.ParseHex4 | cJSON.c:550-583 | the digit loop computes the 16-bit value that StringGrammar.Hex4Exactly spells out for upper, lower and mixed case, or 0 when a byte is no hex digit |
| StringScan.BitMasks | cJSON.c:671-695 | the shifts and masks on code points are the divisions and remainders the model uses |
| StringScan.SurrogateBits | cJSON.c:640-646 | the bit formula for a surrogate pair is 0x10000 plus the two ten-bit halves |
| Parsing.WriteUtf8 | cJSON.c:655-705 | the backward loop writes exactly the UTF-8 form; the branch for an invalid code point is never taken |
| Parsing.ParseBuffer.SkipWhitespace | cJSON.c:973-991 | the cursor ends on the next byte above 32 or on the terminator, never beyond |
| Parsing.ParseBuffer.FindEnd | cJSON.c:721-741 | finds the closing quote and counts the escapes in front of it |
| Parsing.ParseBuffer.DecodeUtf16 | cJSON.c:587-705 | consumes one or two escapes and writes their bytes, or fails, as specified, inside the output block |
| Parsing.ParseBuffer.Decode | cJSON.c:744-812 | the filling loop writes the decoded string and stays in the block the first scan sized |
| Parsing.ParseBuffer.ScanString | cJSON.c:708-834 | the string with a new block, or nothing allocated; it fails only if the text or the memory does |
| Parsing.ParseBuffer.ScanNumber | cJSON.c:276-330 | takes at most 63 number bytes, gives the double nearest to what they denote and moves exactly past what the conversion used |
| Parsing.ParseBuffer.ParseNumberValue | cJSON.c:328-350 | the node holds that number and its saturated conversion to an `int`, or nothing changes |
| Parsing.ParseBuffer.ParseValue | cJSON.c:1222-1274 | result, cursor, failure and where it stops then are those of the specification; depth is restored on success; the new nodes are well linked and own exactly the blocks allocated |
| Parsing.ParseBuffer.ParseItems | cJSON.c:1375-1419 | the loop builds the list of the items the specification reads, or a list that can be freed |
| Parsing.ParseBuffer.ParseArray | cJSON.c:1351-1442 | an array node over exactly these children, or every block freed and the node unchanged |
| Parsing.ParseBuffer.ParseMembers | cJSON.c:1530-1588 | the same for keys and values |
| Parsing.ParseBuffer.ParseObject | cJSON.c:1507-1613 | an object node over exactly these children, or every block freed and the node unchanged |
| Parsing.ParseWithOpts | cJSON.c:1010-1087 | succeeds if and only if the specification does and no request is refused; the tree denotes the parsed value, owns exactly what was allocated, and no node of it is a reference; a failed call leaves no block and, unless memory was refused, reports the byte where the parser gave up |
| Printing.PrintBuffer.Ensure | cJSON.c:383-468 | afterwards there is room for the bytes asked for and one more, and the text so far is kept; it fails only when the fixed size, INT_MAX or memory does not allow it |
| Printing.PrintBuffer.Grow | cJSON.c:429-464 | both ways of moving keep the bytes in front of the offset and exactly one block; when copying by hand reads too far |
| Printing.PrintBuffer.UpdateOffset | cJSON.c:471-481 | the `strlen` lands exactly on the end of the text the last call wrote |
| Printing.PrintBuffer.PrintNumber | cJSON.c:484-547 | appends the text of any double exactly when it, a terminator and a spare byte fit |
| Printing.PrintBuffer.FormatNumber | cJSON.c:494-522 | the text it chooses by reading 15 digits back is the one NumberLayout.PrintedShape describes, and fits the local buffer; null for NaN and infinities |
| Printing.PrintBuffer.CountEscapes | cJSON.c:856-880 | the counting loop gives the exact length of the escaped string |
| Printing.PrintBuffer.StoreEscapedByte | cJSON.c:903-950 | one round of the copying loop writes the escape of that byte, the terminator of `sprintf` included in the room |
| Printing.PrintBuffer.PrintString | cJSON.c:837-956 | appends the quoted string exactly when it, a terminator and a spare byte fit |
| Printing.PrintBuffer.PrintValue | cJSON.c:1277-1348 | succeeds exactly when the value is printable, its text, terminator and one spare byte fit and no request is refused; then the text stands behind what was there |
| Printing.PrintBuffer.PrintArray | cJSON.c:1445-1504 | the same for arrays, whose loop mixes both ways of moving the offset |
| Printing.PrintBuffer.PrintObject | cJSON.c:1616-1727 | the same for objects with their indentation |
| Printing.PrintPreallocated | cJSON.c:1202-1219 | succeeds if and only if len is at least the text length plus 2, and then the buffer holds the text and a NUL |
| Printing.PrintBuffered | cJSON.c:1172-1200 | the first size and the way of growing do not change the result: success if and only if the need is at most INT_MAX and no request is refused; a failed call leaves no block; only size 0 without `realloc` ever reads too far, and a successful call then does |
| Printing.Print | cJSON.c:1097-1170 | a block of exactly the text and its terminator, or none |
| Printing.Shrink | cJSON.c:1125-1144 | both endings of `print` give an exact copy and leave one block or none |
| Lifetime.Delete | cJSON.c:224-245 | frees each block the list owns, each once, and no other: nothing reached through a reference or constant key |
| Lifetime.Discard | cJSON.c:229-243 | one round: the children, the strings that are owned, the node |
| Lists.AddItemToArray | cJSON.c:1858-1885 | appends to the sequence of children, links mutual, ends null; without a list or an item nothing changes |
| Lists.GetArrayItem | cJSON.c:1772-1780 | the child at the index, or null for a negative one or beyond the end |
| Lists.ItemAt | cJSON.c:1753-1770 | the loop lands on the child at the index, or on null beyond the end |
| Lists.InsertItemInArray | cJSON.c:2155-2182 | inserts into the sequence at the index, appends beyond its end, does nothing for a negative index or without a list |
| Lists.DetachItemViaPointer | cJSON.c:2085-2113 | removes the item from the sequence and leaves it without links |
| Lists.DetachItemFromArray | cJSON.c:2115-2123 | the same by index, nothing outside the list |
| Lists.ReplaceItemViaPointer | cJSON.c:2184-2217 | updates the sequence at that place and frees exactly the blocks of the replaced item; nothing for the item itself |
| Lists.ReplaceItemInArray | cJSON.c:2219-2227 | the same by index, nothing outside the list |
| Lists.RemoveInserted | cJSON.c:2115-2182 | detaching what was inserted gives the old sequence |
| Lists.InsertRemoved | cJSON.c:2085-2182 | inserting again what was detached gives the old sequence |
| TreeEdits.AppendChild | cJSON.c:1858-1885 | two whole trees without a common block become one: the array or object has the item at the end of its value and owns its blocks too |
| TreeEdits.InsertChild | cJSON.c:2155-2182 | the same at an index; at a negative one both trees stay as they were |
| TreeEdits.DetachChild | cJSON.c:2115-2123 | two whole trees are left: the value without that item, and the item with its blocks |
| TreeEdits.DeleteChild | cJSON.c:2125-2128 | the value without that item; exactly the blocks of the item are freed |
| TreeEdits.ReplaceChild | cJSON.c:2219-2227 | the value has the new item in that place, again as a whole tree; exactly the old item's blocks are freed; outside the list both trees stay as they were |
| TreeEdits.ReplaceByItself | cJSON.c:2184-2195 | replacing an item by itself changes nothing |
| TreeEdits.OneParent | cJSON.c:2085-2227 | in a whole tree no two nodes have a child in common, which is what an edit relies on |
| TreeEdits.InsertThenRemove | cJSON.c:2115-2182 | inserting and detaching gives the old value back |
| TreeEdits.RemoveThenInsert | cJSON.c:2085-2182 | detaching and inserting again gives the old value back |
| TreeEdits.ReplaceIsRemoveInsert | cJSON.c:2115-2227 | replacing an item is detaching it and inserting the other in its place |
| Documents.AppendText | cJSON.c:1010-1885 | parse two texts, append, print, delete: the printed text is that of the longer array, and no other block is left, whichever step fails |
| Duplication.Duplicate | cJSON.c:2564-2641 | a whole tree with an equal value (or without children) whose blocks are all new; it fails only when memory is refused and then leaves no block |
| Duplication.CopyChildren | cJSON.c:2609-2635 | the loop copies the first children until a request is refused |
| Duplication.CopyKey | cJSON.c:2592-2599 | a constant key is shared, stays constant and adds no block; another one is copied into a new block |
| Comparison.Compare | cJSON.c:2840-2963 | never true for different denotations; true for clean trees with equal ones; between trees sharing no node true only for clean ones; what equal denotations are is Comparison.AlikeExactly |
| Comparison.CompareApart | cJSON.c:2840-2963 | trees that share no node compare equal if and only if they are alike: of one kind, the same bytes, the same number but for the sign of zero, arrays of one length alike item by item, objects with the same names and alike values wherever the names agree, nothing invalid and no NaN |
| Comparison.AlikeExactly | cJSON.c:2840-2963 | for values: being clean with equal denotations is being alike |
| Comparison.FoldMeans | cJSON.c:104-125 | names are the same if and only if they have one length and each byte differs at most in the case of an ASCII letter |
| Comparison.CompareItems | cJSON.c:2901-2923 | the array loop, lengths included |
| Comparison.CompareMembers | cJSON.c:2925-2956 | one of the two object loops: every member has a first match with an equal value |
| Comparison.FindItem | cJSON.c:1782-1812 | the first member with the name, byte by byte or up to the case of ASCII letters |
| Comparison.CompareFolded | cJSON.c:104-125 | 0 exactly for keys that differ at most in the case of ASCII letters |
| Comparison.CoversBothWays | cJSON.c:2925-2956 | covering in both directions is equality of the maps together with agreement of repeated keys |
| Comparison.OrderBlind | cJSON.c:2925-2956 | member order does not matter |
| Comparison.CompareWithCopy | cJSON.c:2564-2963 | when no request is refused, a tree equals its copy if and only if its value is alike to itself: no invalid part, no NaN, and repeated keys that agree |
| Comparison.RepeatedKey | cJSON.c:1782-1812 | two members with one key and different values make an object that its copy does not equal |
| Minification.SkipOnelineComment | cJSON.c:2643-2654 | skips to behind the line end or to the terminator |
| Minification.SkipMultilineComment | cJSON.c:2656-2668 | skips to behind the end of the comment or to the terminator |
| Minification.MinifyString | cJSON.c:2670-2690 | copies the string down byte by byte, never past the read position, leaving what is unread as it was |
| Minification.Minify | cJSON.c:2692-2738 | in place, the text becomes its minified form and a terminator, the rest of the block unchanged |
| Minification.LineCommentEnds | cJSON.c:2643-2654 | a one-line comment ends behind the first newline, or with the text |
| Minification.BlockCommentEnds | cJSON.c:2656-2668 | a multi-line comment ends behind the first star that a slash follows, or with the text |
| Minification.StringRestEnds | cJSON.c:2670-2690 | a string ends behind the first quote that does not stand directly behind a backslash, or with the text |
| Minification.MinifiedByte | cJSON.c:2703-2734 | outside strings and comments exactly space, tab, line feed and carriage return are dropped |
| Minification.MinifiedSlashAlone | cJSON.c:2710-2724 | a slash that begins no comment is dropped by itself |
| Minification.MinifiedLineComment | cJSON.c:2643-2724 | a one-line comment is dropped with its line end, or with the text |
| Minification.MinifiedBlockComment | cJSON.c:2656-2724 | a multi-line comment is dropped with its first end, or with the text |
| Minification.MinifiedText | cJSON.c:2670-2730 | a string stays byte for byte up to the first quote not directly behind a backslash, or with the text |
| Minification.MinifyTwice | cJSON.c:2692-2738 | minifying any text twice is minifying it once |
| MinifiedPrint.MinifiedString | cJSON.c:2670-2690 | a string is kept; one that ends in a backslash runs on to the next quote |
| MinifiedPrint.Commutes | cJSON.c:2692-2738 | for safe values, in any context, minifying turns formatted text into unformatted text |
| MinifiedPrint.Diverges | cJSON.c:2670-2690 | for unsafe values the two texts differ |
| MinifiedPrint.MinifyCommutesWithFormatting | cJSON.c:1616-2738 | minifying the formatted print gives the unformatted print if and only if the value is safe |
| MinifiedPrint.MinifyThenParse | cJSON.c:1010-2738 | the minified print of a safe value parses to the value |
| MinifiedPrint.MinifyDropsSpaces | cJSON.c:2670-2690 | behind a string that ends in a backslash, any ordinary string comes back without its spaces, so changed if and only if it has one |
| MinifiedParse.CloseAgrees | cJSON.c:2670-2690 | where no quote stands behind an escaped backslash, the scan of `minify_string` and that of `parse_string` find the same end of a string |
| MinifiedParse.ValueLined | cJSON.c:1222-2738 | then a value anywhere in a text and what minifying makes of it parse to the same |
| MinifiedParse.MinifyKeepsValue | cJSON.c:1010-2738 | so every such text that has a value keeps it when minified, with nothing left behind it |
| RateLimiter.DiffAtMost | ocgeo_fdw.c:1557 | the difference is never negative and exceeds the elapsed time by at most 999 microseconds per second boundary |
| RateLimiter.DiffAtLeast | ocgeo_fdw.c:1557 | and counts at least the whole milliseconds elapsed |
| RateLimiter.DiffMonotone | ocgeo_fdw.c:1557 | and grows with its end, across second boundaries too |
| RateLimiter.Configured | ocgeo_fdw.c:1569-1570 | M is the configured number of requests per second and the period 1000 / M milliseconds; 0 counts as 1000 |
| RateLimiter.TakeKeepsRange | ocgeo_fdw.c:1577-1597 | after an admitted request there are between 0 and M - 1 tokens exactly where the supply, cut to 32 bits, is not negative |
| RateLimiter.RefusedMeans | ocgeo_fdw.c:1581-1582 | a request waits exactly when the supply is a multiple of 2^32; with a positive delay exactly when the bucket is empty and less than a period has passed |
| RateLimiter.SleepsOnce | ocgeo_fdw.c:1575-1596 | where the loop sleeps the delay is at most a second, and behind it there is a token: the request is admitted unless the sleep took about 2^32 periods |
| RateLimiter.Budget | ocgeo_fdw.c:1574-1597 | in a run whose supply is always in range, requests are paid for by tokens held or by elapsed time |
| RateLimiter.RateBound | ocgeo_fdw.c:1557-1597 | in such a run there are from the i-th to the j-th request at most m + floor((elapsed + 999 * seconds crossed) / (1000 * (1000 / m))), where m is the configured number, or 1000 for 0 |
| RateLimiter.RateBoundExactly | ocgeo_fdw.c:1557-1597 | the supply of a run is always in range if and only if that bound holds for it and for every crowd of requests admitted at the instant of one of its requests |
| RateLimiter.WithinASecond | README.md:199-201 | in less than a second at most m + 1000 / (1000 / m) requests for the configured m, 2m where m divides 1000 |
| RateLimiter.BoundAttained | ocgeo_fdw.c:1557-1597 | for every configured m and second there are runs inside that second with exactly as many requests as the bound |
| RateLimiter.SecondAttained | README.md:199-201 | for every configured m a full bucket admits m + 1000 / (1000 / m) requests within 999001 microseconds, so the bound for less than a second is attained |
| RateLimiter.OverTheLimit | README.md:74-76 | for every configured m a new bucket admits as many, 2m where m divides 1000 and always at least m + 1 |
| RateLimiter.OverlongIdle | ocgeo_fdw.c:1581 | behind every gap whose supply is out of range, M + 1 requests can be admitted at one instant |
| RateLimiter.OverlongIdleReached | ocgeo_fdw.c:1557-1597 | for every limit a new bucket left alone for 2^31 periods is such a gap |
| RequestCounters.Counters.constructor | ocgeo_fdw.c:562-567 | a new entry has the configured tokens and the current time |
| RequestCounters.Counters.AwaitPermit | ocgeo_fdw.c:1573-1596 | ends with a permit, at the first reading if there is one; after a brief gap with at most one sleep, when the period and the clock's lag have passed; after any other gap because the clock does not stand still for good |
| RequestCounters.Counters.Submit | ocgeo_fdw.c:1565-1615 | the history grows by the admission time and the bucket is the one that follows, in range exactly while no supply was out of range and then below the configured number; calls, successes, time and rate information are recorded |
| RequestCounters.HistoryBound | ocgeo_fdw.c:1557-1597 | the rate bound in the configured number for all requests a user's counters have admitted, as long as no supply was out of range; afterwards a crowd that breaks it |
| SdsLayout.ReqTypeFits | sds.c:60-74 | the type chosen for a size is the smallest one whose fields hold it: 31, 2^8 - 1, 2^16 - 1, 2^32 - 1 or 2^64 - 1 |
| SdsLayout.WordOfEncode | sds.h:51-74 | a field of w bytes gives back every number below 256^w, and never a larger one |
| SdsLayout.PackedStructs | sds.h:46-85 | for each of the five types, where in the 1, 3, 5, 9 or 17 bytes in front of the string the length, the capacity and the type stand |
| SdsLayout.SetLen | sds.h:87-152 | storing a length that fits is read back and changes neither type, capacity (but for type 5) nor bytes |
| SdsLayout.SetAlloc | sds.h:180-216 | the same for the capacity; type 5 ignores it |
| SdsLayout.SameHeader | sds.h:87-195 | type, length and capacity do not depend on the bytes of the string |
| SdsStrings.NewLen | sds.c:89-145 | a string with these bytes (or zeroes) in one new block of the right type, or nothing |
| SdsStrings.Sds.Sizes | sds.h:87-195 | length, capacity and free space agree with the contents |
| SdsStrings.Sds.MakeRoomFor | sds.c:204-247 | contents kept through every change of block and header; the capacity is exactly the doubled or enlarged one; a refused call changes nothing |
| SdsStrings.Sds.RemoveFreeSpace | sds.c:255-290 | contents kept, capacity equal to the length |
| SdsStrings.Sds.CatLen | sds.c:397-406 | contents are the old ones and the new bytes; moves exactly when they do not fit |
| SdsStrings.Sds.CpyLen | sds.c:426-435 | contents are the new bytes; moves exactly when they do not fit |
| SdsStrings.Sds.GrowZero | sds.c:379-390 | contents extended by zero bytes to the length, never shortened |
| SdsStrings.Sds.Clear | sds.c:193-196 | contents empty, capacity kept (but for type 5) |
| SdsStrings.Sds.IncLen | sds.h:154-177 | contents extended by bytes already written |
| SdsJoin.GrowthBound | sds.c:204-247 | appending in any pieces moves a string k times only with at least 2^k - 1 bytes up to k = 20, and about 2^20 more for each further move |
| SdsJoin.MovesAtMost | sds.c:204-247 | so N bytes move it at most 20 + N / 2^20 times |
| SdsJoin.BoundAttained | sds.c:204-247 | for every k there are pieces with exactly that few bytes that move it k times |
| SdsJoin.JoinSds | sds.c:1106-1115 | the tokens with the separator between them, in one new block, within the reallocation bound |
| SdsSplit.JoinOfSplit | sds.c:820-868 | joining the tokens of any string gives the string |
| SdsSplit.NoTokenContains | sds.c:820-868 | no token contains the separator |
| SdsSplit.SplitOfJoin | sds.c:820-1115 | splitting a join gives the tokens if and only if each is found whole and the list is not the single empty token |
| SdsSplit.OneByteSeparator | sds.c:838-851 | for a one-byte separator found whole means free of it |
| SdsTokens.SplitLen | sds.c:820-868 | the tokens in blocks of their own, in an array with room for all; a failed call leaves no block |
| SdsTokens.EnsureSlots | sds.c:838-847 | afterwards there is room for the next token and the final one |
| SdsTokens.FreeTokens | sds.c:858-876 | frees the array and every token once |
| SdsQuote.QuoteThenSplit | sds.c:884-1067 | `sdssplitargs` of the quoted forms of any byte strings, joined by spaces, gives the list back |
| SdsQuote.LexRepr | sds.c:977-1013 | inside double quotes the lexer undoes every escape `sdscatrepr` writes |
| SdsRepr.ReprIsVisible | sds.c:884-907 | the quotation of any bytes is printable ASCII, in the escapes of the grammar, codes in lower case, and means these bytes |
| SdsRepr.ReprIsShortest | sds.c:884-907 | and no printable text in double quotes that means them is shorter |
| SdsArgs.ArgsExactly | sds.c:959-1067 | a line splits into a list of arguments if and only if it is written by the grammar with these meanings: white space, bytes outside quotes as they are, double quotes with named and hex escapes, single quotes with only the escaped quote |
| SdsArgs.WordsRead | sds.c:959-1067 | every line of the grammar is split into its arguments |
| SdsArgs.WordsOf | sds.c:959-1067 | and every line that is split is one |
| SdsFaults.RefusedExactly | sds.c:1000-1033 | a line is refused if and only if behind whole arguments a quote is left open, or closed with something other than white space behind it |
| SdsQuote.CatRepr | sds.c:884-907 | appends the quoted form; the string still has one block |
| SdsQuote.LexArg | sds.c:968-1048 | the quote-state loop ends on every text and computes the token or error that SdsArgs.ArgsExactly and SdsFaults.RefusedExactly describe |
| SdsQuote.SplitArgs | sds.c:959-1067 | the outer loop ends on every text and gives the list of those descriptions, or the error |
| SdsNumber.Magnitude | sds.c:455-457 | negating the smallest `long long` overflows but still gives its magnitude |
| SdsNumber.ReverseInPlace | sds.c:468-477 | the swap loop reverses the first bytes and leaves the others |
| SdsNumber.Ll2Str | sds.c:450-479 | the decimal text of any `long long` and its terminator, within 21 bytes, the rest untouched |
| SdsNumber.Ull2Str | sds.c:482-508 | the same for any `unsigned long long` |
| SdsNumber.NumberOfText | sds.c:450-479 | the text denotes the number and has no leading zero |
| SdsNumber.FromLongLong | sds.c:514-519 | a string with that text in one new block, or none |

## Left out

- The C library's conversions are modelled as exact: `strtod`, `sscanf` and `sprintf` round to nearest, ties to even, as the IEEE 754 standard asks of them in the default rounding mode.
- The locale's decimal point; `cJSON_SetNumberHelper`, which changes a number in place.
- `cJSON_Raw` nodes, and the one-line `cJSON_Is...`, `cJSON_Create...` and `cJSON_Add...` functions: they would add only easy members.
- The functions that edit objects by key: they compose operations that are modelled.
- String and object nodes whose string or key pointer is null: the invariant of a node rules them out, except that an absent string is printed as an empty one.
- Parsing.ParseWithOpts: when a request is refused, of the error position it is only said that it lies inside the text.
- FaultGrammar.TextStops: it says nothing of a number with another number byte directly behind it, as in `1-`; the position is then behind the longest numeral, as ParseStop.ItemsStop has it.
- RoundTrip.PrintThenParse: strings contain no NUL, because a C string ends at one.
- MinifiedParse.MinifyKeepsValue: its condition is sufficient; behind a quote it excludes, a value may still be kept where the later strings have no white space or slash in reach, and MinifiedPrint.MinifyDropsSpaces gives a family where it is not.
- Comparison.CompareMembers: one loop stands for the two symmetric ones in the source, called once in each direction.
- Duplication.CopyFields: the type is copied last, while the source copies it first; until then the copy can only be deleted.
- Bit operations are written as arithmetic; `StringScan.BitMasks` and `StringScan.SurrogateBits` justify this.
- Memory is a set of numbered blocks beside the arrays that hold their bytes; pointer arithmetic inside a block is an index.
- RequestCounters.Counters.AwaitPermit: unless the idle gap is brief, it requires a clock that does not stand still for good, and readings less than about 25 days apart; on a clock that stands still the loop would spin for ever behind a gap of a multiple of 2^32 periods.
- RateLimiter.TakeKeepsRange: tokens are not cut to an `int` when 1 is taken from the smallest permits, an overflow C leaves undefined; the next sum is cut, so wrapping there would give the same.
- Rate limits above 1000, for which the period is 0, negative limits, and clocks that run backwards.
- Overflow of the call counters, and what the server answers to a forwarded request: the answer is a parameter.
- SdsStrings.Sds.MakeRoomFor: sizes so large that the block size wraps around a `size_t` are excluded, as no such block can be asked for.
- The header fields are little-endian; other byte orders would only renumber the bytes of a field.
- SdsTokens.SplitLen: the separator and input are byte sequences, so negative lengths do not arise; the number of tokens is not cut to an `int`.
- SdsQuote.SplitArgs: the argument vector and the token being read are sequences, so its allocations and the `err` clean-up are not modelled.
- SdsJoin.JoinSds: a refused request ends the call and leaves what had been joined in its block, because the source would go on with a null pointer.
- SdsQuote.CatRepr: likewise for a refused request; `isprint` and `isspace` are those of the C locale.
- The other sds functions: formatted printing, trimming, ranges, case mapping, `sdsIncrLen`.
- HTTP requests, URLs, the PostgreSQL planner and executor callbacks and the expression rewriting of utils.c: network input and output, or structures defined elsewhere.
