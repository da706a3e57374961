# revgeod: the algorithms behind the server, modelled and proved

revgeod answers reverse-geocoding queries.  Under its HTTP handlers lie four self-contained C files
that do the algorithmic work, and they are what this project models:

- `json.c`, a JSON parser, validator, printer and mutable node tree;
- `uthash.h`, a chained hash table with a second list in insertion order;
- `utstring.h`, Knuth-Morris-Pratt search in both directions;
- `geohash.c`, the geohash codec and the neighbours of a cell.

`dafny verify dfyconfig.toml` checks everything.

## How the model is built

For every part there is first a reference that does not look like the code: a grammar, a sequence of
scalar values, a map with an order, a stable sort, the longest border of a prefix, a grid of cells.
Then come the C functions as methods with loops, arrays and classes, proved equal to the reference.

**JSON.**  `Utf8` holds the encoding table and the byte grammar of RFC 3629.  `JsonGrammar` writes the
grammar of RFC 8259 (sections 2 to 7) as a datatype of syntax trees, with `Render` for the text of a
tree and `Value` for its meaning.  `JsonParser` is the parser as a function of text and position,
`JsonExact` proves it sound and complete for the grammar, and `JsonPrinter` describes the output of the
printer as the rendering of one particular syntax tree, which gives the round trip.  `JsonNumbers` adds
the doubles: strtod and sprintf are two arbitrary functions between texts and an arbitrary type.  The
imperative half is `JsonBuffer` (the growable buffer), `JsonReader` (lexical parsing), `JsonNodes` and
`JsonTree` (nodes on the heap, linking, unlinking, freeing), `JsonChecker` (json_check, what it answers
and when it terminates), `JsonBuilder` (the recursive descent that builds or only validates),
`JsonWriter` (both printers) and `JsonClient` (decoding followed by checking or printing, and deleting).
The pointers in the heap are related to a ghost forest, a map from each node to its parent, key and sequence of children.  Nodes are made and freed by an `Allocator`,
whose state is the set of live nodes and the sequence of freed ones, so that a leak or a second free is
visible in a contract.

The grammar and the code share small functions, for the value of a digit or of an escape, and the theorems
about linking and printing are stated with functions on forests and layouts.  What these are is fixed by
laws that do not mention them, only characters, sequences and pointers: `JsonLaws` says which texts decode
to which values, `JsonOutput` which text is printed for a value, and `JsonLinking` what the linking
interface and json_delete do to the lists of children and to the pointers.  `GeohashLaws` does the same for
the alphabet, the cells and the boxes of geohashes.

**Hash table.**  `UthashLists` is the theory of the two doubly linked lists, `UthashBloom` the optional
filter, `UthashBuckets` the chains and their redistribution, `UthashTable` the table with its
operations, `UthashMap` the view of a client, and `UthashMerge` and `UthashSort` the mergesort.  The
invariant `Valid` contains what HASH_FSCK checks, and beyond it that every element is in the bucket of
its hash value and that the filter accepts every stored key.  Keys may repeat in a table; that they do
not is a theorem about the runs of a client that searches before it adds.  The hash function and the
comparison function are parameters.

**Search.**  `Utstring` defines borders and occurrences, and proves both tables and both searches.

**Geohash.**  `GeohashGrid` is the grid of cells and the bits of a hash, `Geohash` the codec and
`GeohashNeighbors` the tables with their carry.  The grid is defined with real numbers.  The code rounds
after every arithmetic operation, with any function that keeps the numbers a double holds (`Rounding`);
it is proved that no intermediate result is rounded for hashes of up to 18 characters, and that a hash
of 19 characters has a middle that no double holds.

`Bits` has the bitwise operations of the sources on natural numbers, with the arithmetic they amount to.

## Where code and documentation differ

- The printer escapes the bytes below 0x1F (`json.c:1180`), the parser refuses the raw bytes up to and
  including 0x1F (`json.c:867`).  Printing and parsing are therefore not inverse for every string.  The
  lemma `JsonPrinter.RoundTrip` gives the exact condition, and `JsonPrinter.RoundTripFailsOn1F` a string
  for which it fails.
- `geohash.h:54-55` says that a precision out of range means 12; the code takes 6 (`geohash.c:129-130`),
  and so does the model.
- json_append_element and its relatives check that the child has no parent, but not that the parent is
  outside of the subtree of the child, nor that it is not the child itself.  `JsonTree.StepKeepsTree`
  shows that this is exactly when the result is still a tree; `JsonTree.MutualAppend` and
  `JsonTree.SelfAppend` are calls that pass the assertions and make a cycle.
- json_check tests for some cycles of pointers and is documented as a check of the integrity of the tree
  (`json.h:109-113`), but it does not terminate on all of them.  `JsonChecker.HaltsExact` gives the exact
  condition, `JsonChecker.CircleIsCycle` a test for it that a caller can make by walking up, and
  `JsonChecker.MutualHangs` the smallest example.
- A number can change on the way through the library: `1e999` is a JSON number, its double is an infinity,
  and emit_number writes null for it (`json.c:1234-1239`).  `JsonNumbers.ReprintExact` gives the exact
  condition on the conversions, and `JsonNumbers.InfinityComesBackAsNull` the example.

## Model

| member | source | states |
|---|---|---|
| Utf8.ValidateCzExact | json.c:151-203 | for every string and length, utf8_validate_cz accepts that length if and only if these bytes are a UTF8-char of section 4 of RFC 3629 |
| Utf8.GrammarLaw | json.c:151-203 | the byte grammar of section 4 describes exactly the encodings of the scalar values |
| Utf8.EncodingLaw | json.c:265-294 | an encoding is the base-64 digits of the value behind the marks of section 3, in the shortest form |
| Utf8.ReadChar | json.c:226-255 | the scalar value read from an accepted character re-encodes to exactly its bytes |
| Utf8.WriteChar | json.c:265-294 | the shifts and masks write the octets of the encoding table of section 3 of RFC 3629 |
| Utf8.ReadWritten | json.c:226-294 | what is written for a scalar value is accepted with its full length and read back as that value, whatever follows |
| Utf8.RunesOfEncoding | json.c:205-217 | a concatenation of encodings is valid, and its split into characters is unique |
| Utf8.Validate | json.c:206-217 | utf8_validate accepts a string if and only if it is a concatenation of encodings |
| JsonParser.FromSurrogatePair | json.c:302-310 | a pair is accepted if and only if its halves are a high and a low surrogate, and gives the code point of the pair |
| JsonParser.SurrogatePairsExact | json.c:302-326 | from_surrogate_pair and to_surrogate_pair are inverse to each other, for every pair and code point |
| JsonParser.ParseValue | json.c:623-691 | a successful parse advances the cursor strictly and not past the terminator, which is why the mutual recursion terminates |
| JsonExact.NumberSound | json.c:918-964 | what parse_number accepts is a number of section 6 of RFC 8259 |
| JsonExact.NumberComplete | json.c:918-964 | every number of section 6, not followed by a character that would continue it, is accepted with its whole text |
| JsonExact.ItemSound | json.c:808-893 | each step of parse_string reads one raw character or escape of the grammar and yields its UTF-8 value |
| JsonExact.ItemComplete | json.c:808-893 | every raw character and every escape except \u0000 and unpaired surrogates is accepted and read to its end |
| JsonExact.DecodeExact | json.c:361-377 | a text decodes to a value if and only if it is a JSON text of the grammar for that value |
| JsonExact.JsonTextUnambiguous | json.c:361-377 | a text has at most one value |
| JsonPrinter.WriteHex16 | json.c:1301-1311 | the four digits are hexadecimal and denote the given number, which is what parse_hex16 reads back |
| JsonLaws.SpaceLaw | json.c:328 | blank, tab, line feed and carriage return are the only white space |
| JsonLaws.DigitLaw | json.c:329 | the digits are '0' to '9' |
| JsonLaws.BlankLaw | json.c:966-972 | a blank text is a sequence of these characters |
| JsonLaws.SpaceAround | json.c:361-377 | white space around a text does not change what it decodes to |
| JsonLaws.DecodeWord | json.c:623-691 | a text decodes to null, true or false only if it is that word between white space |
| JsonLaws.WordDecodes | json.c:623-691 | the three words decode to their values |
| JsonLaws.NumberParts | json.c:918-964 | a number is an optional minus, an integer without a leading zero, and optional fraction and exponent with at least one digit each |
| JsonLaws.NumberFromParts | json.c:918-964 | every text of this form is a number |
| JsonLaws.DecodeNumber | json.c:918-964 | a text decodes to a number only if it is that number between white space |
| JsonLaws.NumberDecodes | json.c:918-964 | every number decodes to its own text |
| JsonLaws.HexDigitLaw | json.c:1268-1295 | the value of a hexadecimal digit is its position in "0123456789abcdef" or "0123456789ABCDEF", and no other byte is a digit |
| JsonLaws.ParseHex16Law | json.c:1268-1295 | parse_hex16 reads exactly the four digits of a number in base 16, taken from these literals in any mix of cases, and fails on everything else |
| JsonLaws.EscapeLaw | json.c:818-872 | the eight escapes of two characters and the bytes they stand for; there are no others |
| JsonLaws.PairLaw | json.c:302-310 | the twenty bits of a surrogate pair, and the ranges of its halves |
| JsonLaws.DecodeString | json.c:793-906 | a text decodes to a string only if it is a quoted sequence of pieces, each a plain character, an escape of two characters, or one or two escapes by number, for the pieces of the string |
| JsonLaws.StringDecodes | json.c:793-906 | every quoted sequence of pieces decodes to the string that they spell |
| JsonLaws.DecodeArray | json.c:693-735 | a text decodes to an array only if it is, between brackets and separated by commas, texts that decode to its elements |
| JsonLaws.ArrayDecodes | json.c:693-735 | all such texts decode to the array |
| JsonLaws.DecodeObject | json.c:737-791 | a text decodes to an object only if it is, between braces and separated by commas, texts that decode to its keys and values with colons between them |
| JsonLaws.ObjectDecodes | json.c:737-791 | all such texts decode to the object |
| JsonOutput.PrintedCharacter | json.c:1106-1223 | every character is written as one of seven literal escapes of two characters, as \u00 and two upper-case digits if it is another one below 0x1F, or as itself |
| JsonOutput.WrittenHex | json.c:1301-1311 | write_hex16 writes the digits of "0123456789ABCDEF", highest first |
| JsonOutput.PrintedEmpty | json.c:1106-1223 | the empty string is written as two quotation marks |
| JsonOutput.PrintedConcat | json.c:1106-1223 | the characters of a string are written one after the other between one pair of quotation marks |
| JsonOutput.PrintedPlain | json.c:1106-1223 | a valid string without quotation marks, backslashes and bytes below 0x1F is written as it stands between quotation marks |
| JsonOutput.PrintedScalar | json.c:974-999 | the texts of null, true, false and numbers, with null for what is no JSON number |
| JsonOutput.PrintedScalarAt | json.c:1001-1026 | style and nesting matter only for arrays and objects |
| JsonOutput.PrintedArrayCompact | json.c:1028-1039 | without a `space` an array is written as the texts of its elements with commas between and brackets around |
| JsonOutput.PrintedObjectCompact | json.c:1065-1078 | the same for objects, with a colon behind each key |
| JsonOutput.PrintedArrayIndented | json.c:1041-1063 | with a `space` each element is on a line of its own that starts with one more `space` than the closing bracket; an empty array is two brackets |
| JsonOutput.PrintedObjectIndented | json.c:1080-1104 | the same for objects, with a colon and a blank behind each key |
| JsonPrinter.DecodePrinted | json.c:974-1240 | decoding the compact or indented output gives the printed value (null in place of what is no number) when no string or key has the byte 0x1F, and fails otherwise |
| JsonPrinter.RoundTrip | json.c:974-1240 | the decoded output is the printed value if and only if no string or key has the byte 0x1F and every number is a JSON number |
| JsonPrinter.RoundTripFailsOn1F | json.c:1180-1183 | a concrete string that is printable and whose output does not parse |
| JsonPrinter.ParsedStringIsUtf8 | json.c:793-906 | every string that parse_string returns passes utf8_validate, so that it can be printed |
| JsonNumbers.ReprintDecoded | json.c:361-405 | decoding, printing and decoding again gives nothing if a string or key has the byte 0x1F, and otherwise the value with its numbers converted by strtod and sprintf, null where the outcome is no JSON number |
| JsonNumbers.ReprintExact | json.c:361-405 | the same text-for-text value comes back if and only if there is no byte 0x1F and every number is printed as it was written; the same value with the same doubles, if and only if there is no byte 0x1F and every double is printed as a JSON number for itself |
| JsonNumbers.InfinityComesBackAsNull | json.c:1225-1240 | the text 1e999, which decodes, comes back as null where its double prints as inf |
| JsonBuffer.SB.Need | json.c:65-85 | afterwards the requested space is there and the contents are unchanged |
| JsonBuffer.SB.Grow | json.c:71-85 | doubling reaches the requested space, and the new buffer has the old contents |
| JsonBuffer.SB.Put | json.c:87-103 | the bytes are appended to the contents, inside the allocation |
| JsonBuffer.SB.Putc | json.c:94-98 | the character is appended to the contents, inside the allocation |
| JsonBuffer.SB.Finish | json.c:105-110 | the terminator is written inside the allocation, no zero byte is in front of it, and the string before it is the contents |
| JsonReader.ParseNumber | json.c:918-964 | the cursor loops accept what the exact parsing function accepts, and give the text of the number |
| JsonNumbers.StrtodStops | json.c:959-960 | strtod is called with the rest of the text, but in every text that is accepted only white space, a comma, a closing bracket or the end follows a value, so that it reads the number only |
| JsonReader.ParseHex16 | json.c:1268-1295 | the method agrees with the parsing function, which `JsonLaws.ParseHex16Law` pins down: four hexadecimal digits in either case give their number, anything else fails |
| JsonReader.ParseChar | json.c:808-893 | one character is parsed into the buffer, with at most the four bytes that are reserved |
| JsonReader.ParseString | json.c:793-906 | in both modes the same texts are accepted up to the same position, and the building mode returns their value; all writes are in reserved space |
| JsonNodes.Allocator.Alloc | json.c:486-493 | a node that was not alive is alive, with the given members and all pointers NULL |
| JsonNodes.Allocator.Free | json.c:429 | a live node is not alive any more and is the last one in the record of freed nodes |
| JsonNodes.AppendNode | json.c:536-547 | the child sequence of the parent gets the new node as its last element and every pointer of every node agrees with the sequences, also when a node is appended to itself |
| JsonNodes.PrependNode | json.c:549-560 | the same for the first position, also when a node is prepended to itself |
| JsonNodes.RemoveFromParent | json.c:601-621 | the node leaves the child sequence of its parent, becomes a root without a key, and every pointer agrees; on a root nothing happens |
| JsonTree.SetKey | json.c:562-566 | the key of a root changes and nothing else does |
| JsonTree.Run | json.c:536-621 | every sequence of append, prepend and remove calls that passes the assertions gives the forest that the pure sequence operations give, with all pointers in agreement |
| JsonLinking.NodePointers | json.c:536-621 | on a consistent heap the parent, the key, and the head and tail of a node are those of the child sequences, and roots have no siblings |
| JsonLinking.KidPointers | json.c:536-621 | children are linked in both directions in the order of the sequence, point to their parent, and have a key exactly in objects |
| JsonLinking.ValuePointers | json.c:623-791 | a value is stored in a node if and only if tag and scalar members are those of the value and the children hold its elements in order, with its keys |
| JsonLinking.AppendEffect | json.c:568-590 | after json_append_element or json_append_member the child stands behind the others, with its parent and key set, and every other node is as before |
| JsonLinking.PrependEffect | json.c:576-599 | the same in front of the others |
| JsonLinking.RemoveEffect | json.c:601-621 | after json_remove_from_parent the list is the old one without the node, which has no parent and no key, and every other node is as before |
| JsonLinking.RunInOrder | json.c:536-621 | a run is its calls one after the other |
| JsonLinking.RunOfOne | json.c:536-621 | a run of one call is the call |
| JsonLinking.AppendsInOrder | revgeod.c:359-370 | after any number of appends to one container its children are the old ones and then the new ones in the order of the calls, with the keys that were given |
| JsonTree.LinkingKeepsTree | json.c:536-560 | inserting a root anywhere into a child sequence leaves a forest without a cycle if and only if it had none and the way up from the parent does not lead to the root |
| JsonTree.StepKeepsTree | json.c:568-621 | a call of the interface that passes the assertions leaves a forest without a cycle if and only if it had none and the call does not link a node under itself or a node below it; removing makes no cycle |
| JsonTree.MutualAppend | json.c:568-574 | two arrays can be appended to each other: each is then the only child of the other |
| JsonTree.SelfAppend | json.c:568-574 | an array can be appended to itself and then is its own parent and only child |
| JsonTree.SubtreeExact | json.c:407-431 | in every forest, with or without cycles, what json_delete has to free is listed without repetition and consists of exactly the nodes from which the way up leads to the detached node |
| JsonTree.Contiguous | json.c:407-431 | the subtree of every node is a contiguous part of that list and ends with the node, so that children come before their parents |
| JsonLinking.SiblingsInOrder | json.c:407-431 | the subtrees of the children are freed in the order of the list, and the node last |
| JsonTree.JsonDelete | json.c:407-431 | on every consistent heap, also when the node is on a cycle: although it unlinks while it walks, json_delete terminates, calls free for the nodes below the detached node in post-order, each while it is alive and for no other node, and leaves the rest of the forest consistent |
| JsonChecker.TreeOkDemands | json.c:1313-1381 | what a tree in order fulfils at each node and child: valid key and string, head and tail, prev and next in both directions, parent, and a key exactly in objects |
| JsonChecker.TreeOkSuffices | json.c:1313-1381 | a node that fulfils this, with subtrees in order below it, is in order |
| JsonChecker.Answer | json.c:1313-1381 | on an arbitrary heap of nodes, whenever json_check answers, it answers true if and only if the subtree is a finite tree of consistent lists with valid strings and keys |
| JsonChecker.HaltsExact | json.c:1313-1381 | on an arbitrary heap json_check terminates if and only if the way up from the node does not lead back to it over at least one other node through lists that json_check goes down again |
| JsonChecker.CircleIsCycle | json.c:1313-1381 | so it terminates for every node that is a root, its own parent, or not met again on the way up |
| JsonChecker.JsonCheck | json.c:1313-1381 | the recursive method terminates under that condition and gives that answer |
| JsonChecker.RepListOk | json.c:1337-1374 | the list of every container of a consistent forest is the one that json_check demands, and walking it gives the child sequence |
| JsonChecker.ForestHalts | json.c:1313-1381 | on a consistent forest with valid strings, with or without cycles, json_check terminates if and only if the node is not below itself or is its own parent |
| JsonChecker.MutualHangs | json.c:1351-1369 | after two arrays have been appended to each other, no number of calls suffices for json_check of either |
| JsonChecker.SelfishFails | json.c:1352-1353 | after an array has been appended to itself, json_check terminates and does not accept it |
| JsonChecker.ForestChecks | json.c:1313-1381 | on every consistent forest a subtree is in order if and only if its top is not below itself and all its strings and keys are valid UTF-8 |
| JsonBuilder.ParseValue | json.c:623-691 | in both modes the same texts are accepted; the building mode returns a tree for the parsed value whose nodes are new and are all that has become alive, and after a failure the same nodes are alive as before |
| JsonBuilder.ParseArray | json.c:693-735 | the same for arrays |
| JsonBuilder.ParseMember | json.c:753-768 | the same for a key and a value |
| JsonBuilder.ParseObject | json.c:737-791 | the same for objects |
| JsonBuilder.DeletedIsEmpty | json.c:727-734 | deleting the partly built value frees exactly the nodes that were built |
| JsonBuilder.DeleteTree | json.c:369-373 | after json_delete of a tree the nodes that were alive beside it are alive, and no others |
| JsonBuilder.JsonDecode | json.c:361-377 | returns a consistent tree for the value of a JSON text and null for any other text; besides the nodes of the tree the same nodes are alive as before |
| JsonBuilder.JsonValidate | json.c:433-446 | accepts exactly the texts that json_decode accepts, and makes and frees no node |
| JsonWriter.EmitString | json.c:1106-1223 | appends the literal of the layout, whose characters `JsonOutput.PrintedCharacter` gives, every write inside the 14 reserved bytes |
| JsonWriter.JsonEncodeString | json.c:384-392 | the result is the printed text of the string; without quotation marks, backslashes and bytes below 0x1F it is the string between quotation marks |
| JsonWriter.EmitNumber | json.c:1225-1250 | appends what sprintf makes of the double if it is a JSON number, and null otherwise |
| JsonWriter.EmitArray | json.c:1028-1039 | walking the list through `next` appends the rendering of the array |
| JsonWriter.EmitObject | json.c:1065-1078 | the same for the members of an object |
| JsonWriter.EmitArrayIndented | json.c:1041-1063 | the loops with indentation and line ends append the rendering of the indented layout |
| JsonWriter.EmitObjectIndented | json.c:1080-1104 | the same for the members of an object |
| JsonWriter.JsonStringify | json.c:394-405 | on a consistent tree for a value the result is the printed value with its numbers converted, in both styles; `JsonOutput` says what this text is, and the round trip is proved for it |
| JsonClient.DecodedPasses | json.c:361-377 | json_check terminates on every tree that json_decode returns, and the tree is in order with valid strings and keys |
| JsonClient.DecodeAndCheck | json.c:1313-1381 | json_check accepts every tree that json_decode returns |
| JsonClient.Reprint | json.c:361-431 | through heap and buffer: decoding a text, printing the tree and deleting it leaves no node alive, and the output decodes to the same value, in doubles, if and only if no string or key has the byte 0x1F and every double survives sprintf and strtod |
| UthashLists.PushBkt | uthash.h:611-617 | the two pointer writes are the insertion in front of a list, and touch nothing else |
| UthashLists.UnlinkedLinked | uthash.h:227-238 | linking the neighbours of an element to each other leaves a well-formed list without it, and all other elements as they were |
| UthashBloom.BloomExact | uthash.h:124-131 | adding a hash value sets its bit and no other, so that a test changes only for values with the same low bits |
| UthashBloom.BitTestLaw | uthash.h:121-122 | the bit of an index is the binary digit `idx % 8` of byte `idx / 8` |
| UthashBuckets.ChainPushed | uthash.h:611-617 | pushing an element onto the chain of its bucket keeps all chains well formed and complete |
| UthashBuckets.ChainUnlinked | uthash.h:625-640 | unlinking an element keeps all chains well formed and complete for the others |
| UthashTable.Table.constructor | uthash.h:173-180 | a client variable that is NULL is an empty table |
| UthashBuckets.ExcessLaw | uthash.h:688-691 | the items behind the ideal length are counted bucket by bucket |
| UthashTable.Table.OrderPointers | uthash.h:173-196 | in a table that satisfies the invariant, head, tail, count and the prev and next of every element are those of the insertion order |
| UthashTable.Table.BucketPointers | uthash.h:611-617 | the count, the head and the list of every bucket in both directions, whose elements have the hash value of their key in that bucket |
| UthashTable.Table.FindInBkt | uthash.h:597-609 | walking a chain finds an element with the key in it, if and only if there is one |
| UthashTable.Table.Find | uthash.h:94-105 | the result is the element with the key, and NULL if and only if there is none, with or without a Bloom filter |
| UthashTable.Table.InBucket | uthash.h:107-131 | the Bloom test never rejects a stored key, and every element with a key is in the bucket of its hash value |
| UthashTable.Table.MoveItems | uthash.h:681-699 | after the nested loops every item is in the chain of bucket `hashv & (2n - 1)`, with counts, multipliers and the number of non-ideal items as counted |
| UthashTable.Table.Ideal | uthash.h:677-679 | the shift and the mask compute the number of items divided by the number of buckets, rounded up |
| UthashTable.Table.ExpandBuckets | uthash.h:666-712 | the same elements are found in twice as many buckets, a power of two; the ideal length is the rounded-up quotient, the non-ideal items are the sum of the excesses, and expansion is inhibited after two ineffective ones |
| UthashTable.Table.ExpandedLaw | uthash.h:666-712 | the bookkeeping of an expansion in numbers: the ideal length is rounded up, a multiplier is the count divided by it, an expansion is ineffective when more than half of the items are behind the ideal length, and two in a row inhibit expansion |
| UthashTable.Table.AddToBkt | uthash.h:611-622 | the element is in its bucket, and the table is expanded exactly when the chain has reached ten times the multiplier plus one and expansion is not inhibited |
| UthashTable.Table.MakeTable | uthash.h:141-158 | a new table has 32 empty buckets and an empty filter, and its tail is the head |
| UthashTable.Table.AddKeyptr | uthash.h:173-196 | an element that is not in the table becomes the last one in insertion order, whatever its key, and the whole invariant holds again |
| UthashTable.Table.Delete | uthash.h:215-248 | the element is cut out of the insertion order, the order of the others is unchanged and the whole invariant holds again, head and tail included |
| UthashTable.Fsck | uthash.h:278-328 | no check of HASH_FSCK fails on a table that satisfies the invariant |
| UthashMap.DoFindOrAdd | revgeod.c:273-284 | the search returns the stored element with the key and changes nothing, or the new element becomes the last |
| UthashMap.DoFindAndDelete | uthash.h:215-248 | the element that the search returns is the one that goes, and the order of all others stays |
| UthashMap.DoReplace | uthash.h:163-171 | the element with the same key that the search returns gives way to the new one, which comes last; the order of all others stays |
| UthashMap.StepLaw | uthash.h:163-248 | the reference in terms of sequences: the oldest element with the key is kept, taken out, or taken out and followed by the new one at the end |
| UthashMap.RunLaw | uthash.h:163-248 | a run is its operations one after the other, from the empty map on |
| UthashMap.StepAllExact | revgeod.c:273-284 | in the reference no key occurs twice, and a key stands for the element that the operations on this key alone give it |
| UthashMap.StepAllOldestFirst | uthash.h:173-196 | the elements of the reference are in the order in which they were added |
| UthashMap.StepAllElements | uthash.h:173-248 | an element is in the reference if and only if its own key stands for it |
| UthashMap.Run | uthash.h:94-248 | for every run of find-then-add, find-then-delete and replace, any hash function and any filter, the table has the elements of the reference in its order, and each search returns the very element that the earlier operations on its key give |
| UthashMerge.MergeStable | uthash.h:740-790 | merging two stably sorted runs sorts their concatenation stably |
| UthashMerge.PassesStable | uthash.h:719-804 | for every list and every total preorder the passes give the sorted permutation in which equivalent elements keep their order |
| UthashMerge.MergeCountBounds | uthash.h:745-790 | merging two runs takes at least as many comparisons as the shorter one has elements, and less than both have together |
| UthashMerge.PassesBound | uthash.h:715-718 | the comparisons are at most as many as the elements times the passes |
| UthashMerge.RoundsLogarithmic | uthash.h:715-718 | the passes are at most as many as the logarithm of the number of elements, rounded up |
| UthashSort.MergeRuns | uthash.h:745-790 | relinking element by element produces the merge of the two runs behind the output so far, leaves the rest of the input untouched, and makes the comparisons of the merge |
| UthashSort.OnePass | uthash.h:729-795 | one round relinks the list into the merged runs, with all prev and next pointers and the comparisons of the merges, and the number of merges tells whether it was the last |
| UthashSort.Sort | uthash.h:719-804 | terminates for any comparison function; the table stays valid with the same elements, in the order of the mergesort, with the right head and tail and the comparisons of the mergesort, at most n in each of at most log n rounds |
| UthashSort.SortByPreorder | uthash.h:719-804 | for a total preorder the new order is a permutation of the old one, sorted, and of two equivalent elements the one that came first still does |
| Utstring.StrongFailureUnique | utstring.h:157-193 | the strong failure of a position is unique, so that the tables are determined |
| Utstring.EntryLaw | utstring.h:157-193 | an entry is the longest border of the characters before its index that is followed by another character, or -1 |
| Utstring.EntryLawR | utstring.h:197-233 | the same from the right |
| Utstring.OccursAtLaw | utstring.h:237-300 | the needle occurs at a position if and only if its characters stand there side by side |
| Utstring.BuildTable | utstring.h:157-193 | every entry is the longest proper border whose next character differs, or -1, and the last is the longest proper border of the needle |
| Utstring.BuildTableR | utstring.h:197-233 | the table from the right is the mirror image of the one for the reversed needle |
| Utstring.SearchBound | utstring.h:237-266 | from every state of the search the comparisons to come are at most twice the characters to go and the characters matched |
| Utstring.FindForward | utstring.h:237-266 | returns the smallest position of the needle, or -1 if and only if there is none, and makes exactly the comparisons of the search function, at most twice as many as the haystack has characters |
| Utstring.FindBackward | utstring.h:270-300 | returns the largest position of the needle, or -1 if and only if there is none, and makes exactly the comparisons of the forward search in the reversed strings |
| Utstring.LastIsFirstReversed | utstring.h:270-300 | the last occurrence is the first one of the reversed needle in the reversed haystack |
| Utstring.UtString.Find | utstring.h:304-346 | the first occurrence at or after the start position, the length of the string plus the start when it is negative, or -1, for every start that is not read in front of the buffer |
| Utstring.UtString.FindR | utstring.h:350-388 | the last occurrence that ends at or before the start position, the length of the string plus the start when it is negative, in the string or, for a start behind it, in the body, or -1 |
| GeohashLaws.AlphabetLaw | geohash.c:59 | the characters of a hash are the digits and the letters from 'b' to 'z' without 'i', 'l' and 'o', in ascending order; each stands for its position, and any other character acts as 31 |
| GeohashLaws.CellLaw | geohash.c:189-229 | one more character refines the cell of a hash by its five bits, which alternate between longitude and latitude |
| GeohashLaws.BoxLaw | geohash.c:37-41 | the box of a column and a row, in degrees |
| GeohashLaws.ContainsLaw | geohash.c:158-173 | a point belongs to a cell if it is in its box, and on the south or west edge only if that is the edge of the map |
| GeohashGrid.CharMapInjective | geohash.c:59 | the 32 characters are distinct, and each stands for its own index |
| GeohashGrid.HashCellInjective | geohash.c:127-242 | different hashes of one length have different cells |
| GeohashGrid.EdgeHalves | geohash.c:162-173 | halving an interval keeps its ends and adds the line in the middle |
| Rounding.HalvesOfInterval | geohash.c:158-173 | the sum, the difference and their halves, as geohash_encode and geohash_decode compute them, are not rounded when the ends are integers of at most 53 bits over a power of two |
| Rounding.NotDouble | geohash.c:158-219 | a fraction in lowest terms whose numerator or denominator is too long is no double |
| Geohash.BoxHalves | geohash.c:158-219 | no intermediate result is rounded when the box of up to 94 bits is halved |
| Geohash.IndexForChar | geohash.c:80-96 | the loop returns the first position of the character, or -1 as an unsigned number |
| Geohash.BitAtExact | geohash.c:221 | the shifted and masked index is the bit of the digit, and is always set for the index -1 |
| Geohash.UniqueHash | geohash.c:127-187 | a point lies in the cell of at most one hash of each length |
| Geohash.Encode | geohash.c:127-187 | with the arithmetic of doubles: NULL exactly off the map; otherwise a hash of the asked length, or of 6 characters if that is not between 1 and 12, the one hash whose cell contains the point, with the south and west edges excluded except on the edge of the map |
| Geohash.CoarserIsPrefix | geohash.c:127-187 | a coarser hash of a point is a prefix of a finer one |
| Geohash.Decode | geohash.c:189-242 | with the arithmetic of doubles, for up to 18 characters: the box of the cell of the hash and its middle, also for invalid characters, which act as 'z'; zeros for NULL and the empty string |
| Geohash.CentreOfLongHash | geohash.c:231-232 | a hash of 19 characters whose box has a middle that no double holds, so that the code has to round |
| Geohash.Reencode | geohash.c:127-242 | with the arithmetic of doubles, encoding the centre of the decoded box at the length of the hash gives the hash, for all valid hashes of length 1 to 12 |
| Geohash.DimensionsForPrecision | geohash.c:268-293 | height and width are those of the box of every hash of this length, with the arithmetic of doubles up to a precision of 430 |
| Geohash.WidthOf431 | geohash.c:284-285 | at the next precision no double holds the width |
| GeohashNeighbors.TableIndex | geohash.c:65-75 | in each table the index of a character is the digit next to its own, modulo the size of the block |
| GeohashNeighbors.BorderExact | geohash.c:77-78 | the border strings list exactly the characters from which a step leaves the block |
| GeohashNeighbors.NeighborExact | geohash.c:98-125 | get_neighbor returns the hash of the adjacent cell in the direction, of equal length, and runs out of characters if and only if the cell is on the edge of the map |
| GeohashLaws.NeighborLaw | geohash.c:98-125 | in columns and rows: one step changes one of them by one, and there is none exactly on the first or last column or row |
| GeohashLaws.DistanceLaw | geohash.c:245-266 | the hash at a distance of some columns and rows is the one of equal length whose cell is there, and there is none exactly off the map |
| GeohashNeighbors.NeighborBox | geohash.c:98-125 | the decoded box of the neighbour borders on the box of the hash, in a grid of the same size |
| GeohashNeighbors.OppositeCancels | geohash.c:98-125 | opposite steps cancel |
| GeohashNeighbors.PerpendicularCommute | geohash.c:98-125 | perpendicular steps commute, also with respect to whether they succeed |
| GeohashNeighbors.AllNeighbors | geohash.c:245-266 | the eight results are the cells at N, NE, E, SE, S, SW, W and NW in this order, as far as they are on the map |
| GeohashNeighbors.EightDistinct | geohash.c:245-266 | away from the edge all eight exist, are distinct and differ from the hash itself |

## Left out

- The HTTP handlers, curl, LMDB, statsd, signals, statistics and the clients: input and output over libraries whose code is not in the repository.
- What strtod and sprintf compute: they are arbitrary functions, and the theorems say what follows for all of them.  A node stores the text of its number, which determines its double: strtod gets the rest of the text, and on `0x10` may read more than the `0` that parse_number accepts, but only white space, a comma, a closing bracket or the end may follow a number in a text that decodes (`JsonNumbers.StrtodStops`); on all other texts the node is freed again.
- The branch of emit_string for invalid UTF-8, and its output of surrogate pairs: the first lies behind a failing assertion, the second is switched off by a constant in the function; to_surrogate_pair itself is modelled.
- JsonWriter.EmitString: does not model invalid UTF-8, because the code asserts that the string is valid.
- C strings are sequences of the bytes 1 to 255 whose terminator reads as 0; the copies that json_strdup makes of strings and keys, and the freeing of strings, are not modelled, only the making and freeing of nodes.
- Allocation failure, and the overflow of int, unsigned and size_t counters.
- The tags and scalar members of a node do not change after it is made, so that json_check's test of the tag range and of the value of a boolean cannot fail in the model.
- json_find_element, json_find_member, json_first_child and the constructors for single nodes: they add only easy members.
- HASH_SELECT, which updates neither the tail nor the filter; HASH_CLEAR, HASH_ITER, HASH_COUNT and HASH_OVERHEAD, which add only easy members.
- The hash functions: any function from keys to 32-bit numbers is allowed.  The offsets between an element and its handle are not modelled: an element is its handle, and the shared UT_hash_table is one object with the variable of the client.
- utstring_printf and the growth of a UT_string, and lengths beyond the range of int, to which the searches cast them.
- Utstring.UtString.Find: excludes the starts in front of the string for which the code reads in front of the buffer.
- Utstring.UtString.FindR: excludes the starts behind the body for which the code reads beyond it.
- Geohash.Encode: coordinates that are not numbers or infinite are not modelled; every comparison with a NaN fails, and the result is NULL.
- Geohash.Decode: nothing is promised for doubles and more than 18 characters, where the code rounds for some hashes (`Geohash.CentreOfLongHash`).
- Geohash.DimensionsForPrecision: nothing is promised for doubles beyond a precision of 430, where the code leaves the range of doubles (`Geohash.WidthOf431`).
- GeohashNeighbors.GetNeighbor: excludes invalid characters, and returns None where the code would read in front of the empty string.
- The memory of get_neighbor: it appends up to `hash_length - 1` characters, and then one more, to an allocation of one byte (`geohash.c:106-121`), which is outside of what C defines; the model has the strings that result when this does no harm.
