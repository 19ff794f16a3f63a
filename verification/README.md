# kjson, verified

A Dafny model of kjson, a JSON parser and printer written in C, with proofs of what its parts promise
to each other and to their callers. The model follows the code branch by branch; where the code and its
documentation differ, it follows the code and the proofs say exactly when the documented meaning holds.

What is modelled:

- **The object map** (`kjson/kmap.c`, `kjson/kmap.h`): a linear dictionary of three records that turns into an
  open-addressed hash table in place. `Table`, `Rehash`, `Load` and `Growth` treat the table as a value,
  `Ending` says when the retry loop of a set ends and `KeptKeys` which keys a rehash keeps; `ObjectMap` and
  `RunConverse` treat the two forms and whole runs of operations. `RawMap` has the fields as the code leaves them, for
  every key and after every removal, and says when its operations are those of `ObjectMap`; `DictRemoval` says what
  they are after a removal from a dictionary. `KMap` is the class whose methods probe, write and resize the record
  array in place and are proved equal to the functions of `RawMap`.
- **Hashing and key comparison** (`kjson/khash.h`, `kjson/kjson.c`): `Hash`; `LowHash` and `EqualNames` compute with
  its low bits to find the names that `LossExample`, `EndlessExample`, `RemovalExample` and `OddNames` need.
- **The parser** (`kjson/kjson.c`, `kjson/kstream.h`, `kjson/kstack.h`): `ParserSpec` gives each parse function
  as a function of the current character and the unread bytes; `Parser` is the stream class, with its cursor
  and its shared value stack updated in place. `Grammar` is an independent account of section 2 of RFC 4627,
  as syntax trees with the text and the value of each, escaped surrogate pairs included; `StringProofs`,
  `NumberProofs`, `ParserProofs`, `Objects`, `ValueProofs`, `Refusals`, `ObjectKeys`, `Acceptance`, `Meanings` and
  `Surrogates` connect the parser to it. `Notation`, `HexDigits` and `NumberRange` restate its characters, digits and
  bounds as literal texts and numbers; `TopLevel` says what may stand at the top of a text and `Malformed` with which
  error a text that is not of the grammar is refused.
- **The printer and the string builder** (`kjson/kjson.c`, `kjson/kstring_builder.h`, `kjson/karray.h`):
  `Utf8`, `Utf8Strings`, `Numerals`, `Builder`, `Printer`, `RoundTrip` for printing followed by parsing and `Reprint`
  for parsing, printing and parsing again; `PrintedBytes` says byte by byte what is printed. `JsonApi` holds the two
  entry points.
- **Arrays, value words and memory**: `JsonArray` (the union of inline items and heap list), `NumBox` (the
  NaN-boxed word, on 64-bit vectors), `IntWords` with `Signs` (integers in such words and `JSON_getInt`) and
  `MemoryPool` (the size-classed bump allocator).

A key is what the comparison sees of a text: its length, its hash and its bytes up to the first NUL. Each record of
an object keeps the name it was set with last beside its value, and the value of an object means what iterating over
its map yields.

Numbers are kept as the exact decimal that the parser hands to its floating-point conversion. A C exception
(`longjmp`) is a failure result. Where C's behaviour is undefined the parser model fails with `Undefined`, which is
kept apart from a thrown error: a read past the stream, integer overflow, a power of ten beyond the table, the first
byte of an empty name, which is read but never written when two names of an object are empty, and a table that grows
past 32 bits. The build that `CMakeLists.txt` selects by default compiles assertions out, and so does the model.
Lemmas switch Dafny's automatic induction off, so every induction is written out.

Where the code differs from what a reader of its documentation would expect:

- A rehash drops a record that finds its window full (`kjson/kmap.c:82-83`). `Load.GrowKeepsIff`,
  `Growth.SetAgreesIff`, `RunConverse.RunAgreesFromIff` and `ObjectKeys.ObjectKeepsIff` say exactly when that happens
  and `KeptKeys.GrowKeepsExactly` which keys are kept;
  `LossExample.ObjectLosesAMember` with `LossExample.CrowdingNames` gives an object of eighteen members from which
  the parser drops one.
- The retry loop does not always stop (`kjson/kmap.c:91-95`). If no resize loses a record, it stops exactly when the
  key's window has room at some size up to the 32-bit limit, judged by the stored hashes (`Ending.SetEndsIff`). So
  when sixteen keys of one hash are stored, whatever other keys there are, a new key of that hash is never placed
  unless a resize drops a record. `EndlessExample` gives objects of seventeen members that are never finished. The
  model ends the loop where the table's size would pass 32 bits, with the status `Exhausted`.
- `kmap_set` after `kmap_remove` can store a key a second time: `ObjectMap.SetMapAgreesIff` says exactly when a set
  agrees with the finite map, and `RemovalExample.SetAfterRemove` shows it for the keys a and e, where removing e
  afterwards brings its old value back.
- `kmap_remove` of a stored key in the dictionary form leaves its hash behind (`kjson/kmap.c:285-288`):
  `DictRemoval.LookupAfterRemove` and `DictRemoval.SetAfterRemove` say exactly which lookups and sets then follow a
  null pointer, and `DictRemoval.IterateAfterRemove` exactly when iteration is still right.
- A name whose hash is 0 is stored in a record that counts as empty (`kjson/kmap.c:56-60`, `kjson/kmap.c:239-240`). A
  dictionary keeps it exactly when no new name is set after it, which for different names means that it stands first
  in the text; otherwise the record is written over and iteration runs into one that was never written. A table never
  shows it (`ObjectKeys.ObjectKeepsIff`, `ObjectKeys.TableHidesZero`). `OddNames.ZeroName` is such a name, and
  `OddNames.ZeroText`, `OddNames.ZeroInFront` and `OddNames.ZeroBehind` give objects of both kinds.
- Names of one length and hash that agree up to a NUL are one key (`kjson/kjson.c:98-107`), so that the second of them
  in the text is lost: `OddNames.NulNames` and `OddNames.ConfusedShare`.
- A minus sign in an exponent is never seen (`kjson/kjson.c:650-653`), and scales below -308 give an infinity of the
  wrong sign (`kjson/kjson.c:669-671`): `NumberProofs.DoubleMeaningIff`.
- Surrogate pairs are stored as two three-byte groups (`kjson/kjson.c:433-460`): `Surrogates.StringMeaningIff`, and
  `Surrogates.ClefIsReadAsTwo` for U+1D11E.
- An array that the end of the stream cuts off behind a comma is accepted (`kjson/kjson.c:597-606`):
  `Malformed.CutArrayIsAccepted`.
- Of members with equal names the first one in the text counts, since pairs are popped from the stack in reverse
  (`kjson/kjson.c:572-580`): `Objects.SetsKeepFirsts`.
- Names are printed without escapes (`kjson/kjson.c:819`): `Reprint.QuoteInName` says that the parser then refuses
  what is printed if the first name holds a quote.
- The word of the double +0.0 is the word that means "no value" (`NumBox.NopIsZero`), so that
  `JSON_getInt` answers 0 for it (`IntWords.ZeroRealIsMissing`); with assertions compiled in,
  the one at `kjson/kjson.c:578` stops on such a member value.
- `JSONArray_new` of more than two items yields an array of size 0 (`kjson/kjson.h:421-432`, `kjson/karray.h:55-60`).

## Model

| member | source | states |
|---|---|---|
| Table.SearchFinds | kjson/kmap.c:100-111 | A lookup finds a key exactly when it is stored, holes in the window or not, and finds its current value |
| Table.PlaceStores | kjson/kmap.c:52-70 | With room in the window and no hole before the key, a set is an update of the finite map, reports whether the key was new, and keeps every probe chain closed |
| Table.PlaceAgreesIff | kjson/kmap.c:52-70 | A set that finds room agrees with the finite map and keeps keys unique if and only if no hole lies before the stored key |
| Table.EraseRemoves | kjson/kmap.c:157-167 | Clearing the slot of a key removes exactly that key from the map, whatever chains ran through the slot |
| Table.UsedCountIsKeys | kjson/kmap.h:113-116 | The number of used slots is the number of different keys |
| Table.WrapIsModulo | kjson/kmap.c:67 | Wrapping an index once or twice round the table is the remainder by its size |
| Bits.AndMask | kjson/kmap.c:54 | Masking with a power of two less one is the remainder |
| Bits.Log2RoundsUp | kjson/karray.h:36-38 | LOG2 is the least exponent whose power of two is not below its argument |
| Bits.OrDisjoint | kjson/kjson.c:438-447 | Joining a tag with bits below it is addition |
| Bits.DigitByDigit | kjson/khash.h:40-47 | And, or and exclusive or work on each binary digit by itself |
| Rehash.ReinsertFew | kjson/kmap.c:72-86 | At most sixteen records all find room in the new table, whatever their hashes |
| Rehash.ReinsertUnwrapped | kjson/kmap.c:72-86 | If no record has wrapped, reinserting in slot order drops none, puts none behind its old slot's bound, and wraps none |
| Rehash.MovedAll | kjson/kmap.c:72-86 | A rehash that moved every record keeps the map, the windows and closed probe chains |
| Load.FitsIff | kjson/kmap.c:80-84 | A record finds room at its turn if and only if some slot of its window ends no stretch that earlier records overcrowd |
| Load.GrowKeepsIff | kjson/kmap.c:72-86 | A fourfold rehash keeps the map if and only if every record has room at its turn, judged from stored hashes alone; otherwise some key is lost |
| KeptKeys.GrowKeepsExactly | kjson/kmap.c:72-86 | A fourfold rehash keeps exactly the keys that, going through the slots in order, find room among the keys kept before them by their hashes; each keeps its value |
| Growth.GrowKeeps | kjson/kmap.c:72-86 | With no wrapped record or at most sixteen records a rehash loses nothing, changes no value, and the condition holds again afterwards |
| Growth.GrowNeverFurther | kjson/kmap.c:72-86 | From a table without wrapped records, no record ends up further from its home |
| Growth.SetStores | kjson/kmap.c:88-98 | A set through any number of lossless resizes is an update of the finite map and keeps the invariants |
| Growth.SetAgreesIff | kjson/kmap.c:88-98 | For any table, a set that ends agrees with the finite map and keeps keys unique if and only if no hole lies before the stored key and every resize on its way has room for every record |
| Growth.SafeKeepsUntilFit | kjson/kmap.c:88-98 | The two easy conditions rule out a loss at every resize of one set |
| Growth.FewFitAtOnce | kjson/kmap.c:88-98 | With fewer than sixteen records a set resizes at most once |
| Growth.SpreadStops | kjson/kmap.c:88-98 | The retry loop ends no later than the first size at which the low bits of all hashes differ |
| Ending.SetEndsIff | kjson/kmap.c:88-98 | If no resize loses a record, the retry loop ends if and only if the key's window has room now or, by the hashes of the stored keys, at a later size |
| Ending.SetEndsByHashesIff | kjson/kmap.c:88-98 | For a table without holes the hashes alone tell whether the loop ends, the present size included |
| Ending.RoomEnds | kjson/kmap.c:88-98 | Room for all the keys at some later size makes the loop end whatever the resizes on the way lose |
| Ending.EqualHashesExhaust | kjson/kmap.c:88-98 | With sixteen keys of one hash stored among any others, a new key of that hash is never placed at any size unless a resize drops a record |
| EqualNames.EqualHashesExist | kjson/khash.h:40-60 | For every n there are 2^n different names of one hash |
| EndlessExample.ObjectNeverEnds | kjson/kjson.c:570-581 | Of seventeen different names of one hash the first sixteen sets store theirs and the last never ends, so the parser does not finish the object |
| EndlessExample.SeventeenNames | kjson/khash.h:40-60 | There are seventeen such names, of 27 letters |
| LossExample.FilledStep | kjson/kmap.c:52-70 | Sixteen names whose hash is 31 modulo 128, set one after the other in an empty table of 32 slots, wrap to its front |
| LossExample.ObjectLosesAMember | kjson/kjson.c:570-581 | From an object of eighteen members with such names the parser builds a map that lacks one of them |
| LossExample.CrowdingNames | kjson/khash.h:40-60 | There are eighteen such names, with the hashes that the library computes for them |
| RemovalExample.SetAfterRemove | kjson/kmap.c:52-70 | set a, set b, remove a, set b leaves two records of b and a size of 2, and removing b brings its old value back |
| RemovalExample.SuchKeys | kjson/khash.h:40-60 | There are such keys: the names a and e |
| ObjectMap.ConvertKeeps | kjson/kmap.c:212-218 | The in-place conversion of the dictionary keeps the map and leaves a table without holes in its chains |
| ObjectMap.InitEmpty | kjson/kmap.h:120-125 | A new map of any initial size is well formed and empty |
| ObjectMap.LimitIsWidth | kjson/kmap.c:45-50 | A table of a power of two of slots is within the model's limit exactly when 24 bytes for each slot fit 32 bits |
| ObjectMap.InitForm | kjson/kmap.h:120-125 | A map made for up to three members is a dictionary of three records, any other a table of the least sufficient power of two of slots |
| ObjectMap.FourthKeyConverts | kjson/kmap.c:212-254 | The fourth key, and nothing else, turns a dictionary into a table, and that has 32 slots |
| ObjectMap.SetMapStores | kjson/kmap.c:234-254 | A set in either form, conversion included, is an update of the finite map with the right status |
| ObjectMap.SetMapAgreesIff | kjson/kmap.h:98-101 | A set that ends, in either form, agrees with the finite map and keeps keys unique if and only if it is ready |
| ObjectMap.GetMapFinds | kjson/kmap.c:256-268 | A get in either form answers what the finite map holds |
| ObjectMap.RemoveMapRemoves | kjson/kmap.c:157-167 | A remove is removal from the finite map |
| ObjectMap.RunRefines | kjson/kmap.c:88-167 | Any ready run of sets, gets and removes refines the run on a finite map: the statuses of its sets, the answers of its gets and its final map are the same, and the size is that of the domain |
| ObjectMap.KMapRefinesFiniteMap | kjson/kmap.h:93-125 | The same from a new map of any initial size, through dictionary, conversion and resizes |
| ObjectMap.SixteenKeysAlwaysReady | kjson/kmap.c:72-98 | Sets and gets of at most sixteen keys are always ready, so such runs need no condition |
| ObjectMap.SpreadKeysReady | kjson/kmap.c:72-98 | Sets and gets of any number of keys whose homes differ in the initial table are always ready |
| RunConverse.RunAgreesFromIff | kjson/kmap.c:88-111 | From any map without holes in its chains, a run of sets and gets of which every set ends agrees with the finite map, in the statuses and answers it returns and in the map it leaves, if and only if no set on the way loses a record |
| RunConverse.RunAgreesIff | kjson/kmap.c:88-111 | The same from kmap_init with any initial size |
| RawMap.SetLifts | kjson/kmap.c:234-254 | On a map none of whose keys has hash 0, the set of another such key does to the records, the words of hash_list and used_size what the set of the map does, and the map stays such |
| RawMap.FindLifts | kjson/kmap.c:100-111 | A lookup in such a map, in either form, meets no record without a key and finds what the lookup of the map finds |
| RawMap.RemoveLifts | kjson/kmap.c:157-167 | A removal from a table does to records and used_size what the removal of the map does |
| RawMap.NextLifts | kjson/kmap.c:169-183 | On a clean map the next record is the one the map says, in either form |
| RawMap.IterableIff | kjson/kmap.c:292-303 | Iteration is right if and only if at every index the next record is returned; a dictionary only counts |
| RawMap.SetHashLive | kjson/kmap.c:52-98 | For any table and key, records of hash 0 included: apart from such records a set does what it does to the table without them, and the set of a key of hash 0 only makes room |
| RawMap.SetRecs | kjson/kmap.c:52-98 | Every record that a set leaves, whatever the key and the form, was there before or is the one it sets |
| DictRemoval.LookupAfterRemove | kjson/kmap.c:256-290 | After a stored key is removed from a dictionary a lookup follows a null pointer if and only if it has the hash of that key and is not stored before it; all other lookups are answered as before |
| DictRemoval.RemovedIsNotMissing | kjson/kmap.c:256-290 | So the lookup of the removed key itself follows a null pointer |
| DictRemoval.SetAfterRemove | kjson/kmap.c:234-290 | A set then follows a null pointer if and only if its key has the hash of the removed one and is not stored before it; otherwise it writes where it would have written before, or, finding no word, turns the dictionary into a table that is right again |
| DictRemoval.IterateAfterRemove | kjson/kmap.c:292-303 | Iteration then meets exactly the remaining records if and only if the last record was removed |
| ObjectMap.IterationCovers | kjson/kmap.c:169-183 | Iterating to NULL yields every stored key exactly once with its current value |
| ObjectMap.IterateIsRecords | kjson/kmap.c:292-303 | In both forms iteration visits the used slots in order |
| KMap.KMap.constructor | kjson/kmap.h:120-125 | A new map object is valid and in the initial state of the specification |
| KMap.KMap.SetNoResize | kjson/kmap.c:52-70 | For every key the probe loop writes what placing it gives, over a record of hash 0 as over an empty one, and nothing when the window is full |
| KMap.KMap.MoveAll | kjson/kmap.c:80-84 | The rehash loop leaves the fold of placements, in slot order, of the old records whose hash is not 0 |
| KMap.KMap.Resize | kjson/kmap.c:72-86 | A new record array of twice the size given, holding the reinserted records, and used_size counts them |
| KMap.KMap.HashSet | kjson/kmap.c:88-98 | For every key the retry loop ends with the table, the count and the status the specification gives |
| KMap.KMap.DictSet | kjson/kmap.c:234-254 | For every key the dictionary's set, converting in place where no word is left, and stopping where it would compare a record without a key |
| KMap.KMap.Set | kjson/kmap.h:98-101 | For every key the new fields and the status are those of the specification on the old fields, and the invariant is kept |
| KMap.KMap.HashFind | kjson/kmap.c:100-111 | For every key the masked index scan gives the answer of the specification: the slot, none, or a record without a key |
| KMap.KMap.DictLookup | kjson/kmap.c:256-268 | For every key the dictionary scan gives the answer of the specification, looking at hash_list first |
| KMap.KMap.Get | kjson/kmap.h:93-96 | The answer of the specification and, for a record found, its value |
| KMap.KMap.Remove | kjson/kmap.c:280-290 | For every key and in either form the record found loses its hash and key and the count is lowered, the words of hash_list stay, and nothing changes if none is found |
| KMap.KMap.Next | kjson/kmap.c:169-183 | The next record of the iteration; a dictionary only counts up to used_size |
| KMap.KMap.Size | kjson/kmap.h:113-116 | The used_size field, which is the number of keys of a map as ObjectMap has it |
| KeysOnly.SameRunReady | kjson/kmap.c:88-98 | Whether a run of sets loses nothing depends on the keys alone, not on the values |
| Hash.FnvString | kjson/khash.h:40-47 | The byte loop computes the fold of its stretch of bytes |
| Hash.FnvUnrolled | kjson/khash.h:49-60 | The four-bytes-a-round hash equals the plain fold on every byte string |
| Hash.FnvFoldAppend | kjson/khash.h:49-60 | Folding a concatenation is folding its parts one after the other |
| Hash.KeysEqualIff | kjson/kjson.c:98-107 | The key comparison holds if and only if lengths, hashes and the bytes up to the first NUL agree |
| Hash.KeyIsIdentity | kjson/kjson.c:98-107 | Two texts, not both empty, are the same key of the model if and only if JSONString_equal takes them for equal |
| Hash.ConfusableIff | kjson/kjson.c:98-107 | Two texts are confused if and only if they are the same key although they differ or are empty |
| Utf8.ScanBack | kjson/kjson.c:433-450 | Encoding any code points up to 0x10ffff one after the other and scanning the bytes gives back exactly those code points |
| Utf8.LeadBits | kjson/kjson.c:438-447 | The or of a lead tag and the shifted code is their sum |
| StringProofs.SkipSpaceExact | kjson/kjson.c:312-364 | For every input the bytes passed over are all white space, what is left is the rest of the stream, and the character returned is the first other one, or 0 at the end |
| StringProofs.SkipSpaces | kjson/kjson.c:312-364 | All white space before a character is skipped and the character returned |
| StringProofs.ScanText | kjson/kjson.c:366-423 | The fast scan stops at the first escape or at the closing quote and has passed over exactly the plain characters before it |
| StringProofs.TailText | kjson/kjson.c:505-514 | The escape loop reads any characters up to the closing quote |
| StringProofs.StringParses | kjson/kjson.c:482-517 | Every string of the grammar is read to just behind its closing quote with the bytes it stands for, by either path, and the tag says which path |
| HexDigits.DigitIsRead | kjson/kjson.c:425-431 | Each of the sixteen digits written out, in lower and in upper case, is read as its value |
| HexDigits.OthersAreNot | kjson/kjson.c:425-431 | Every other byte is refused as a hex digit |
| HexDigits.CodeIsRead | kjson/kjson.c:452-460 | Every four-digit numeral below 0x10000, each digit in either case, is read as the bytes written for its number |
| HexDigits.CodeIsWritten | kjson/kjson.c:433-450 | The bytes written for a code are its form in section 3 of RFC 3629: the shortest group, whose tags and bits stand for the code; nothing above 0x10FFFF |
| Notation.Classes | kjson/kjson.c:287-311 | White space, digits, escape letters and the bytes that stop the scan of a string are exactly the characters listed |
| Notation.EscapesAreRead | kjson/kjson.c:462-480 | Each of the eight escape letters is read as its byte, both as numbers |
| Notation.LiteralsAreRead | kjson/kjson.c:683-734 | The rest of each literal is read behind its first letter, and three bytes alone make the four-byte load pass the stream |
| Notation.TextIsWritten | kjson/kjson.c:536-729 | The grammar's text of any value is its text by itself, spelt with the characters of RFC 4627 written out, and then what follows |
| NumberProofs.NumberParses | kjson/kjson.c:621-681 | Every number in range is read whole, its next byte left unread, as its exact mantissa and the exponent without sign |
| NumberRange.NumberFitsIff | kjson/kjson.c:621-681 | A number is in range if and only if its digits stay within 9223372036854775807, its exponent within 2147483647, and its scale is below 308 and not -308 |
| NumberRange.EighteenDigitsFit | kjson/kjson.c:621-681 | At most eighteen digits before an exponent of at most 307 are in range |
| NumberRange.IntegersAreRead | kjson/kjson.c:621-681 | The decimal text of any integer is read as that integer, in the size its value asks for, from -9223372036854775807 to 9223372036854775807, and overflows outside |
| NumberRange.DoubleIsRead | kjson/kjson.c:663-680 | Any other number in range is read with its sign, all its digits and its scale, and below a scale of -308 as the infinity of the other sign |
| NumberProofs.IntegerMeaning | kjson/kjson.h:450-460 | An integer literal is read as itself, in the 32-bit form exactly when it fits |
| IntWords.ReadsBack | kjson/kjson.h:208-214 | An int64_t is read back from its value word as it was stored, sign extended from 32 bits or from the field it points to, and the tag says which |
| IntWords.LiteralIsRead | kjson/kjson.h:450-460 | The word that JSONInt_new makes for an integer literal in range holds the value the parser gives the literal and is read as the integer it denotes |
| IntWords.WordsAreHeld | kjson/kjson.h:450-460 | A table whose integers were put into words by JSONInt_new holds them all |
| IntWords.GetIntAnswers | kjson/kjson.h:208-214 | JSON_getInt finds the key's word in either form of the map and answers the integer, and 0 for a missing key |
| IntWords.ParsedIntIsRead | kjson/kjson.h:208-214 | On a parsed object JSON_getInt answers the integer that the text denotes for a name, and 0 for a name that no member has |
| IntWords.ZeroRealIsMissing | kjson/kjson.h:159-163 | A stored +0.0 is answered like a missing key |
| NumberProofs.DoubleMeaningIff | kjson/kjson.c:638-680 | Any other number is read as its value if and only if its scale stays in the table and no minus sign in its exponent matters |
| NumberProofs.MinusExponentExample | kjson/kjson.c:650-653 | 1e-5 is read as 1e5 |
| Surrogates.StringMeaningIff | kjson/kjson.c:433-460 | A string is the one RFC 4627 gives if and only if no escaped high surrogate is followed by an escaped low one |
| Surrogates.ClefIsReadAsTwo | kjson/kjson.c:433-460 | The escapes d834 and dd1e, one character, are read as six bytes and not as its four |
| Surrogates.PairsFound | kjson/kjson.c:433-460 | The count of surrogate pairs is zero exactly when there is none at any position |
| Surrogates.PairIff | kjson/kjson.c:433-460 | Two escapes are a pair if and only if they are the UTF-16 form of a code above 0xFFFF |
| Surrogates.PairStandsFor | kjson/kjson.c:433-460 | Such a pair stands, in the string RFC 4627 gives, for that code |
| ParserProofs.NodeParses | kjson/kjson.c:519-619 | parseChild reads the text of any value that fits, at any nesting and with any white space, up to its end |
| ParserProofs.ElemsParse | kjson/kjson.c:597-604 | The array loop collects the items in source order |
| ParserProofs.MembersParse | kjson/kjson.c:542-568 | The object loop collects keys and values in source order |
| ParserProofs.DocParses | kjson/kjson.c:736-782 | A whole text that fits is accepted and consumed, whatever byte stands behind it |
| ParserProofs.DocParsesToNul | kjson/kjson.c:745-750 | A NUL behind the text ends it, whatever follows |
| TopLevel.TopIsContainer | kjson/kjson.c:758-782 | Whatever the bytes, an accepted value is an array or an object |
| TopLevel.TopParses | kjson/kjson.c:736-782 | A value that fits, between white space and a NUL, is accepted if it is an array or an object and refused as the top value if not; one that does not fit is undefined |
| TopLevel.ScalarIsRefused | kjson/kjson.c:764-769 | A string, a number or a literal alone is refused as the top value |
| TopLevel.BlankIsRefused | kjson/kjson.c:736-769 | So is a text of white space only, or an empty one |
| Refusals.NumberFails | kjson/kjson.c:621-681 | A number out of range makes C's arithmetic or table access undefined |
| Malformed.FaultSpreads | kjson/kjson.c:519-619 | What parsing a value fails with is what the whole text fails with, however deep in arrays and objects the value stands and whatever well-formed items come before it |
| Malformed.MalformedIsRefused | kjson/kjson.c:425-731 | A text whose first fault is one of thirteen kinds, at any depth, is refused with the error for that kind, whatever bytes follow |
| Malformed.RestIsRefused | kjson/kjson.c:746-752 | A text with anything but white space and a NUL behind its top value is refused |
| Malformed.CutArrayIsAccepted | kjson/kjson.c:597-606 | An array that the end of the stream cuts off behind a comma is accepted with the items before it |
| Refusals.DocParsesIff | kjson/kjson.c:736-782 | A text of the grammar is accepted, with its value, if and only if its numbers are in range and its objects' maps are built; it is never rejected with an error |
| Acceptance.ReadyFitsIff | kjson/kjson.c:570-581 | An object none of whose names has hash 0 and whose map keeps every key is built if and only if it has no two empty names |
| Acceptance.FewFitIff | kjson/kjson.c:570-581 | An object of at most sixteen members, whatever the hashes of its names, is built if and only if no two names are empty |
| Acceptance.RoomyNamesFit | kjson/kjson.c:570-581 | An object of any number of members is built if, at the last size within 32 bits, every name has room among all of them by their hashes |
| Acceptance.EndsFitIff | kjson/kjson.c:570-581 | An object of any number of members without two empty names is built if and only if every set of its keys ends |
| Acceptance.NamesFitIff | kjson/kjson.c:570-581 | Whether an object is built depends on its names alone; up to sixteen names it is exactly that no two are empty |
| Acceptance.TextAcceptedIff | kjson/kjson.c:736-782 | A text of the grammar is accepted if and only if its numbers are in range and the names of its objects fit |
| Objects.SetsKeepFirsts | kjson/kjson.c:570-581 | Setting the pairs from last to first leaves every name with the value of its first occurrence |
| Objects.MakeLifts | kjson/kjson.c:570-581 | If no name has hash 0, the map object the parser fills has the fields of the map that the sets of the map make |
| Objects.ZeroHolds | kjson/kmap.c:234-254 | A dictionary in which the name of hash 0 is followed by no new name is iterated over whole, with the first occurrence of every name |
| Objects.ObjectHolds | kjson/kjson.c:570-581 | The map made for names it can keep holds exactly the first occurrence of each, names that are confused taken for one, and iteration yields them |
| ValueProofs.HeldMeans | kjson/kjson.h:524-536 | Such an object means, by iteration, the first occurrence of every key under the name it has there |
| Objects.SixteenNamesFaithful | kjson/kjson.c:570-581 | Objects of at most sixteen members with distinguishable names, none of hash 0, are always kept whole |
| ValueProofs.ValueMeans | kjson/kjson.c:519-681 | The value built for a faithful tree means what the grammar says the tree denotes, surrogate pairs read as RFC 4627 has them |
| Meanings.ValueMeansIff | kjson/kjson.c:519-681 | If the names of every object stand for different strings, the value is built and means what the tree denotes if and only if the tree is faithful |
| Meanings.TextReadIff | kjson/kjson.c:482-753 | Such a text is accepted, consumed and read as the value it denotes if and only if it is faithful |
| ValueProofs.ParserIsComplete | kjson/kjson.c:482-753 | Every faithful text is accepted, consumed to the end, and yields the value it denotes |
| ObjectKeys.ObjectKeepsIff | kjson/kjson.c:570-581 | For different keys the object is built and iterated over with all its members if and only if, without a name of hash 0, the names' hashes let every set keep its table, or, with one, it is the first of at most three members and the only one |
| ObjectKeys.NothingLost | kjson/kjson.c:570-581 | An object that shows as many names as it has members has different keys, told apart and all kept |
| ObjectKeys.TableHidesZero | kjson/kmap.c:169-183 | Of an object of more than three members no name of hash 0 is ever shown |
| OddNames.ZeroName | kjson/khash.h:40-60 | The hash of 3pjNqM is 0 |
| OddNames.ZeroText | kjson/kjson.c:535-583 | The text {"3pjNqM":true} is accepted, consumed and read as it stands |
| OddNames.ZeroAlone | kjson/kmap.c:234-254 | An object whose only name has hash 0 means that member |
| OddNames.ZeroInFront | kjson/kmap.c:234-254 | A name of hash 0 in front of another one is read like any other |
| OddNames.ZeroBehind | kjson/kmap.c:234-303 | Behind another name it is written over, the size is 2 with one record left, and iteration runs into a record that was never written |
| OddNames.NulNames | kjson/kjson.c:98-107 | There are two names of eight bytes with a NUL that the comparison takes for one |
| OddNames.ConfusedShare | kjson/kjson.c:535-583 | An object with two such names is accepted with one member, the first |
| Parser.InputStream.constructor | kjson/kstream.h:70-78 | The stream covers the text and one byte behind it, with an empty stack |
| Parser.InputStream.Next | kjson/kstream.h:56-59 | The next byte, the cursor one further |
| Parser.InputStream.SkipSpace | kjson/kjson.c:312-364 | The cursor loop agrees with the specification |
| Parser.InputStream.SkipUnescaped | kjson/kjson.c:366-423 | The bytes between the saved position and the stopping byte are those the specification passes over |
| Parser.InputStream.ParseEscape | kjson/kjson.c:462-480 | The builder gains exactly the bytes of the escape |
| Parser.InputStream.ParseString | kjson/kjson.c:482-517 | Result and unread bytes agree with the specification on both paths |
| Parser.InputStream.ParseNumber | kjson/kjson.c:621-681 | Result and unread bytes agree, the byte after the number put back by stepping the cursor back |
| Parser.InputStream.ParseBool | kjson/kjson.c:710-724 | Result and unread bytes agree for the two literals |
| Parser.InputStream.ParseNull | kjson/kjson.c:726-734 | Result and unread bytes agree for the literal |
| Parser.InputStream.ParseChild | kjson/kjson.c:519-533 | Result and unread bytes agree at any depth, and on success the shared stack is exactly as it was |
| Parser.InputStream.ParseArray | kjson/kjson.c:585-619 | The items pushed since the call are moved off the stack in order into the array |
| Parser.InputStream.ParseObject | kjson/kjson.c:535-583 | The pairs pushed since the call are popped in reverse into a new map object, the stack as before |
| Parser.InputStream.PopObject | kjson/kjson.c:569-581 | The map object filled by popping has the fields the specification gives, whatever the names, and every pair has left the stack |
| Parser.InputStream.SetPair | kjson/kjson.c:233-238 | One member is set as the specification sets it, or the set has no well-defined end |
| Parser.InputStream.Pop | kjson/kstack.h:67-72 | The last value leaves the stack |
| Parser.InputStream.Move | kjson/kstack.h:74-81 | The values above a mark leave the stack for a list, in order |
| Parser.InputStream.Parse | kjson/kjson.c:736-782 | Result and unread bytes agree for a whole text, with the check on the top value of the RFC 4627 mode |
| Numerals.DigitsOfValue | kjson/kstring_builder.h:77-83 | The decimal digits of a number are a number of the grammar with that value |
| Builder.StringBuilder.EnsureSize | kjson/karray.h:61-69 | Afterwards the bytes asked for fit, the capacity grows only when they did not and to less than twice what is needed, and the contents are unchanged |
| Builder.StringBuilder.Add | kjson/karray.h:76-82 | One byte is appended; the capacity stays unless one byte or none was spare, and then at least doubles and at most quadruples |
| Builder.StringBuilder.AddNoCheck | kjson/kstring_builder.h:57-62 | With a byte free the unchecked write appends it and uses that byte up |
| Builder.StringBuilder.AddString | kjson/kstring_builder.h:99-103 | The string is appended across any growth |
| Builder.StringBuilder.AddHexNoCheck | kjson/kstring_builder.h:69-75 | The hex digits of any 32-bit number fit the room reserved, and two bytes stay free after a code of six digits |
| Builder.StringBuilder.AddInt | kjson/kstring_builder.h:77-83 | The decimal text of any 32-bit integer fits the room reserved |
| Builder.StringBuilder.ToString | kjson/kstring_builder.h:110-122 | The buffer returned is everything appended and a NUL |
| Printer.AddUnicode | kjson/kjson.c:433-450 | The bit operations append the encoding of the code point |
| Printer.AddPlain | kjson/kjson.c:807-813 | The three unchecked writes fit the one reservation |
| Printer.ReadCode | kjson/kjson.c:877-893 | The continuation loop decodes one group and ends behind it |
| Printer.AddEscaped | kjson/kjson.c:895-924 | Every unchecked write fits the room reserved before it, the closing quote too, and the text is the escaped string |
| PrintedBytes.EscapedBytes | kjson/kjson.c:908-924 | Each of the bytes 34, 92, 47, 8, 12, 10, 13 and 9 is printed as a backslash and its own letter |
| PrintedBytes.OtherBytes | kjson/kjson.c:908-924 | Every other ASCII byte is printed as itself |
| PrintedBytes.OtherCodes | kjson/kjson.c:877-907 | A code beyond ASCII is printed as a backslash, the letter u and its hex digits |
| PrintedBytes.NoControls | kjson/kjson.c:895-924 | No byte of a printed string is 8, 9, 10, 12, 13 or above 127 |
| PrintedBytes.HexOfValue | kjson/kstring_builder.h:69-75 | The hex digits written for a number stand for it, in lower case and without leading zeros |
| Utf8Strings.CodeIff | kjson/kjson.c:863-892 | A code is found exactly at a lead byte whose continuation bytes, as far as the string goes, are ones |
| Printer.AddObject | kjson/kjson.c:824-838 | The members are printed in iteration order, separated by commas |
| Printer.AddArray | kjson/kjson.c:840-855 | The items are printed in order, separated by commas |
| Printer.AddJson | kjson/kjson.c:965-975 | The builder gains exactly the printed text of the value |
| Printer.ToStringWithLength | kjson/kjson.c:977-990 | The printed text and a NUL, which the length counts |
| RoundTrip.EscapeParses | kjson/kjson.c:895-924 | Escaping any ASCII bytes and parsing gives the same bytes and stops behind the closing quote |
| RoundTrip.PrintIsText | kjson/kjson.c:807-975 | What is printed for a value of the round-trip domain is a text of the grammar |
| RoundTrip.PrintThenParse | kjson/kjson.c:807-990 | Printing and parsing gives back the same meaning for every array or object of the domain |
| Reprint.ParsePrintParse | kjson/kjson.c:736-990 | A text of 32-bit integers, plain or ASCII strings and objects of at most sixteen names that need no escapes is accepted, and what is printed of its value is accepted with the same meaning |
| Reprint.QuoteInName | kjson/kjson.c:807-820 | If the first name printed holds a quote, the parser refuses the printed text |
| Utf8Strings.WellFormedScans | kjson/kjson.c:877-924 | The printer's scan gets through every string parsed from well-formed UTF-8 and escapes, and meets one code for each |
| JsonApi.JsonParse | kjson/kjson.c:758-789 | The stream parser accepts a text of the grammar if and only if its numbers and names fit, and for different names returns what the text denotes if and only if it is faithful; what it returns is an array or an object, a scalar or blank text is refused as the top value, and a malformed one with the error of its first fault |
| JsonApi.PrintAndParse | kjson/kjson.c:977-990 | The printing method followed by the parsing method returns a value of the same meaning |
| JsonArray.JsonArray.constructor | kjson/kjson.h:421-432 | A new array; above two items its size is 0 with room for the number asked for |
| JsonArray.JsonArray.FromStack | kjson/kjson.c:606-617 | The array holds exactly the items moved in, inline or on the heap |
| JsonArray.JsonArray.AddToList | kjson/karray.h:76-82 | One item is appended, capacity always enough; it stays unless one place or none was spare, and then at least doubles and at most quadruples |
| JsonArray.JsonArray.Append | kjson/kjson.c:208-231 | One item is appended, across the switch at two items where the list pointer overwrites the first item's cell |
| JsonArray.JsonArray.Get | kjson/kjson.h:481-495 | The item, or the word for no value out of range |
| JsonArray.JsonArray.Put | kjson/kjson.h:497-513 | The item is replaced in range, nothing happens out of range, and the answer is true either way |
| JsonArray.JsonArray.PerformAll | kjson/kjson.c:208-231 | Any run of appends, gets and sets agrees with the run on a sequence |
| JsonArray.AppendsKeep | kjson/kjson.c:208-231 | An item stays readable at its index through any run that does not set that index |
| NumBox.UnboxBox | kjson/knumbox.h:70-143 | A value is read back with its constructor and payload if and only if it fits: pointers below 2^47, doubles outside the tag space |
| NumBox.BoxInjective | kjson/knumbox.h:70-105 | No two values, of one constructor or of two, share a word |
| NumBox.NumbersFit | kjson/knumbox.h:141-143 | Every double that is a number stays outside the tag space; only negative quiet NaNs can fall into it |
| NumBox.NopIsZero | kjson/kjson.h:153-163 | The word for no value is the word of +0.0 and of nothing else |
| NumBox.OddIsPointer | kjson/kjson.h:193-198 | The low bit of the type code marks exactly the values held by a pointer |
| NumBox.TypeNumbers | kjson/kjson.h:60-73 | Each value has its own kjson_type number, written out |
| NumBox.PointerWord | kjson/knumbox.h:80-105 | A pointer's word is its address in the low 47 bits under the tag of its type |
| NumBox.ScalarWords | kjson/knumbox.h:70-108 | The words of doubles, integers, booleans and null, written out |
| NumBox.TagWords | kjson/knumbox.h:31-49 | The tag of each type as a 64-bit word |
| MemoryPool.AlignRoundsUp | kjson/kmemory_pool.h:55 | The rounding macro gives the least multiple of sixteen that holds the request |
| MemoryPool.ClassInRange | kjson/kmemory_pool.h:111-113 | Every pooled request falls into one of the six classes |
| MemoryPool.ClassIsLeast | kjson/kmemory_pool.h:111-113 | The class taken is the first whose size, of 16, 32, 64, 128, 256 and 512, holds the rounded request |
| MemoryPool.JSONMemoryPool.constructor | kjson/kmemory_pool.h:83-100 | A new pool has six classes with one empty block of 16384 bytes each, in order, and has handed out nothing |
| MemoryPool.JSONMemoryPool.Alloc | kjson/kmemory_pool.h:102-129 | A request up to 512 is met from the one class whose size is the least that holds it, at a 16-byte offset in its current block, or in a new one only where that is full; a larger one gets a block of its own; the pool's whole new state; the flag is never cleared |
| MemoryPool.JSONMemoryPool.AllocAll | kjson/kmemory_pool.h:102-129 | Over any run of requests the bytes handed out lie in their blocks and are pairwise disjoint, and disjoint from all handed out before |
| MemoryPool.JSONMemoryPool.Delete | kjson/kmemory_pool.h:138-152 | Every block the pool obtained is freed exactly once, and no block given to a caller directly is |
| MemoryPool.BlocksDistinct | kjson/kmemory_pool.h:138-152 | The blocks met class by class are all different |

## Left out

- Floating-point conversion, the table of powers as doubles and printing with `%g`: the model stops at the exact mantissa and exponent.
- The number formatter libtoa is not part of this model; its output is taken to be canonical decimal for 32-bit integers and lower-case hex without padding.
- Printing of 64-bit integers and doubles, and round trips through printed `\u` escapes, whose digits are not padded to four.
- Texts that the grammar does not generate and that have none of the faults of `Malformed`: the code accepts some, such as a number whose decimal point has no digits behind it, a tab after the first escape of a string, or a string or object that the end of the stream cuts off.
- The RFC 7159 mode, in which any value may stand at the top.
- Reference counts, the `*_free` functions and aliasing between values: a parsed object is returned as the final state of its map, not as a live map object.
- Assertions, which the default build compiles out, except where a failed one would be followed by undefined behaviour anyway.
- malloc failure, and 32-bit overflow of sizes other than the table size at which the retry loop is ended.
- ObjectMap.RemoveMap: runs do not remove a stored key from a map still in its dictionary form; `RawMap` and `KMap.KMap.Remove` do, and `DictRemoval` says what that does to the map.
- ValueProofs.ValueMeans: one direction for objects that have a name twice, because a second set of the name can undo a loss; `Meanings.ValueMeansIff` has both for different names.
- Ending.SetEndsIff: the exact condition supposes that no resize loses a record; `Ending.RoomEnds` holds without that.
- Acceptance.NamesFitIff: for more than sixteen names that a resize may lose, or one of which has hash 0, the condition is the run of the sets of these names; `Acceptance.RoomyNamesFit` has a condition on the hashes that suffices.
- IntWords.ParsedIntIsRead: for objects without a name of hash 0.
- Printer.AddEscaped: bytes that are not whole groups of the scan's encoding are excluded: after a bad continuation byte `toUTF8` returns a null pointer that the loop goes on from (`kjson/kjson.c:886-887`), and at a byte that announces no length it never moves on, so that the loop does not end.
- Printer.ReadCode: such groups are excluded here too.
- Printer.AddJson: doubles and 64-bit integers are excluded, whose text is not modelled.
- Printer.AddObject: objects that hold such values are excluded.
- Printer.AddArray: arrays that hold such values are excluded.
- Printer.ToStringWithLength: such values are excluded.
- The other hash functions of `kjson/khash.h` and the disabled SSE2 branches.
- Two empty names in one object: the comparison reads a byte that was never written, and the model does not say which way it goes.
- Benchmarks, tests and build files.
