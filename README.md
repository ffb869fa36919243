# libSystem, modelled and verified in Dafny

A Dafny model of the core of DeforaOS libSystem, with proofs of its
properties. The core is the C library's containers, strings, configuration
store, scanner, encoders and event loop bookkeeping, plus the `configctl`
and `config` command-line tools. Each C file is one Dafny module, and two
further modules hold what the two tools share, the argument split, and the
round trip of the loader and the saver:

| module | file | models |
|---|---|---|
| `Common` | common.dfy | C integer limits, `Option`, byte helpers and sequence lemmas shared by the others |
| `Arrays` | arrays.dfy | `Array` of src/array.c, as a class over a sequence of elements |
| `Buffers` | buffers.dfy | `Buffer` of src/buffer.c |
| `Hashes` | hashes.dfy | `Hash` of src/hash.c: an insertion-ordered association list with a stored hash per entry, and `hash_func_string` on 32-bit vectors |
| `Mutators` | mutators.dfy | `Mutator` of src/mutator.c, a `Hash` keyed by string content |
| `Strings` | strings.dfy | the string functions of src/string.c; the in-place ones (clear, trims) work on a `char` array |
| `Configs` | configs.dfy | `Config` of src/config.c: the section → variable → value table, the loader as a parser of the text, the saver as a printer, and the preference paths |
| `ConfigRoundTrip` | config_roundtrip.dfy | loading the saved text gives back every variable |
| `Arguments` | arguments.dfy | the `[section.]key[=value]` split the two tools do in place on argv |
| `ConfigCtl` | configctl.dfy | tools/configctl.c |
| `ConfigTool` | configtool.dfy | tools/config.c |
| `Tokens` | token.dfy | `Token` of src/token.c |
| `Parsers` | parser.dfy | the string `Parser` of src/parser.c: scanner, lookahead, filters, callbacks |
| `Variables` | variable.dfy | `Variable` of src/variable.c and its serialisation |
| `AppInterfaces` | appinterface.dfy | the call table and call marshalling of src/appinterface.c |
| `Events` | event.dfy | `Event` of src/event.c: the fd lists, fdmax, the loop counter, the timeouts |

Objects whose fields the C code updates in place are classes with those
fields: Array, Buffer, Hash, Config, Token, Parser, AppInterface and Event.
Their methods are proved against specification functions on values, and
the lemmas about those functions carry the properties.

Some inputs of the C code are parameters here:

- the contents of a configuration file are a character sequence, or the errno of a failed open;
- `$HOME` and the errno `getenv` leaves are parameters;
- the time and the ready descriptors are inputs of the event loop;
- the results of callbacks, filters and foreach functions are supplied functions.

A `char` stands for a C byte. The C `String` type's terminator is implicit: a
`String` is a sequence of characters without NUL.

## Model

| member | source | states |
|---|---|---|
| Common.Inc32 | src/parser.c:157-163 | the unsigned int increment of the line and column counters: exact below UINT32_MAX, 0 after it |
| Arrays.New | src/array.c:41-57 | an element size above UINT32_MAX gives NULL; any other gives a new empty array |
| Arrays.Array.constructor | src/array.c:53-55 | a new array has the given element size and no element |
| Arrays.Array.Count | src/array.c:70-73 | the count is the number of elements |
| Arrays.Array.Get | src/array.c:77-85 | the element at pos, or NULL from the count on |
| Arrays.Array.GetCopy | src/array.c:89-98 | copies the element at pos and returns 0; past the end returns 1 and leaves the destination |
| Arrays.Array.Set | src/array.c:102-129 | positions from UINT32_MAX on give -1 and change nothing; otherwise the elements become Stored's |
| Arrays.Stored | src/array.c:113-127 | after array_set the array holds max(count, pos + 1) elements, the value at pos, every old element elsewhere, and zero elements between the old end and pos |
| Arrays.Array.Append | src/array.c:134-149 | the value becomes the new last element; the earlier ones stay (with the exact offset; the 32-bit one is AppendOffsetAsWritten's) |
| Arrays.Array.RemovePos | src/array.c:153-162 | past the end gives ERANGE and changes nothing; otherwise the elements become Removed's |
| Arrays.Removed | src/array.c:153-162 | one element fewer; those before pos in place, the later ones moved down by one |
| Arrays.RemoveThenAppend | src/array.c:134-162 | removing an element and appending it again is a permutation of the elements |
| Arrays.Array.Foreach | src/array.c:166-173 | the callback runs on every element in index order, threading the data |
| Arrays.FoldLast | src/array.c:166-173 | the last element is visited last |
| Arrays.FoldAddRun | tests/array.c:67-73 | summing the run m .. m + n - 1 adds n·m + n(n - 1)/2 |
| Arrays.Scenario | tests/array.c:30-65 | every check of the test passes (result 0): the element read back, 1024 elements each at its own index, their sum through array_foreach, 513 at position 512 after the removal |
| Arrays.SetIndices | tests/array.c:44-46 | setting every position 0 .. 1023 to its index leaves exactly those 1024 elements |
| Arrays.ReadIndices | tests/array.c:47-51 | reading back the 1024 elements finds each index at its own position |
| Arrays.Fold | src/array.c:166-173 | visiting no element leaves the data as it was |
| Arrays.AppendOffsetAsWritten | src/array.c:137 | the offset as written is the 32-bit product of size and count, so it stays at most UINT32_MAX |
| Arrays.AppendOffsetWraps | src/array.c:137-146 | 65536 elements of 65536 bytes give the offset 0 as written, instead of 2^32 |
| Arrays.AppendOffset | src/array.c:137-146 | the 64-bit offset leaves room for one more element and follows the bytes of every stored element |
| Arrays.AppendOffsetAgrees | src/array.c:137 | the wrapped offset is right exactly when the product fits in 32 bits |
| Buffers.Buffer.constructor | src/buffer.c:54-71 | a new buffer holds a copy of the data, or size zero bytes for NULL |
| Buffers.Buffer.GetSize | src/buffer.c:98-101 | the size is the number of bytes held |
| Buffers.Buffer.GetData | src/buffer.c:91-94 | the data has the buffer's size |
| Buffers.Buffer.SetSize | src/buffer.c:134-147 | the contents become Resized's |
| Buffers.Resized | src/buffer.c:134-147 | exactly size bytes: the old ones up to size, then zeros |
| Buffers.ResizedBack | src/buffer.c:138-146 | resizing to the current size changes nothing; growing then shrinking back restores the buffer |
| Buffers.Buffer.Set | src/buffer.c:105-114 | the contents become Initial's |
| Buffers.Initial | src/buffer.c:54-71 | size bytes equal to the data, or all zero for NULL |
| Buffers.Buffer.SetData | src/buffer.c:118-130 | a sum that overflows size_t gives -ERANGE and changes nothing; otherwise the contents become Overlay's |
| Buffers.Overlay | src/buffer.c:118-130 | the bytes at [offset, offset + size), every other old byte in place, zeros in the gap a growth opens |
| Buffers.WrappedSum | src/buffer.c:121-124 | the wrap test on the size_t sum fires exactly when the true sum exceeds SIZE_MAX |
| Buffers.OverlayProperties | src/buffer.c:118-130 | writing a whole buffer at 0 replaces it; writing the bytes already there changes nothing |
| Buffers.NewCopy | src/buffer.c:75-78 | a fresh buffer with the same bytes |
| Buffers.Scenario | tests/buffer.c:38-62 | every step of the test returns 0 |
| Hashes.LastMatch | src/hash.c:175-217 | the index of the last entry matching the key, or -1; no later entry matches |
| Hashes.FirstMatch | src/hash.c:221-232 | the index of the first entry matching the key, or -1; no earlier entry matches |
| Hashes.LastMatchUnique | src/hash.c:175-194 | an index with the properties of LastMatch is LastMatch |
| Hashes.FirstMatchUnique | src/hash.c:221-232 | an index with the properties of FirstMatch is FirstMatch |
| Hashes.Hash.constructor | src/hash.c:94-131 | a table with the given functions and entries |
| Hashes.Hash.Count | src/hash.c:168-171 | the count is the number of entries |
| Hashes.Hash.Find | src/hash.c:175-194 | the reverse scan finds LastMatch |
| Hashes.Hash.Get | src/hash.c:175-194 | the value of the last matching entry, or NULL |
| Hashes.Hash.GetKey | src/hash.c:198-217 | the stored key of the last matching entry, or NULL |
| Hashes.Hash.Set | src/hash.c:221-247 | returns 0; a matching entry is overwritten, or removed for NULL; otherwise a value is appended and NULL changes nothing |
| Hashes.Hash.Foreach | src/hash.c:260-276 | the callback on every key and value in insertion order |
| Hashes.Hash.Reset | src/hash.c:280-288 | no entry is left |
| Hashes.Lookup | src/hash.c:175-194 | nothing exactly when no entry matches the key; otherwise the value of a matching entry |
| Hashes.New | src/hash.c:94-113 | NULL exactly without a comparison function; otherwise an empty table |
| Hashes.NewCopy | src/hash.c:117-131 | a fresh table with the same functions and entries |
| Hashes.AtMostOneMatch | src/hash.c:221-247 | in a table hash_set built, with fitting functions, no two entries match one key |
| Hashes.ScansAgree | src/hash.c:175-247 | the forward scan of hash_set and the reverse scan of hash_get find the same entry |
| Hashes.LookupFinds | src/hash.c:175-194 | an entry whose key compares equal is the one hash_get returns |
| Hashes.AssignedWellFormed | src/hash.c:221-247 | hash_set keeps each stored hash equal to its key's, and no two keys equal |
| Hashes.AssignedCount | src/hash.c:231-246 | one more entry for a new key with a value, one fewer for a present key set to NULL, the same otherwise |
| Hashes.AssignedLookup | src/hash.c:175-247 | after hash_set, hash_get of an equal key gives the new value, and of any other key what it gave before |
| Hashes.SameKeyMatches | src/hash.c:62-68 | an entry matches a key exactly when it matches any equal key |
| Hashes.OtherKeyMatches | src/hash.c:62-68 | no entry matches two keys that differ |
| Hashes.LookupOverwritten | src/hash.c:236-241 | AssignedLookup for a present key and a value |
| Hashes.LookupRemoved | src/hash.c:239-240 | AssignedLookup for a present key and NULL |
| Hashes.LookupAppended | src/hash.c:243-246 | AssignedLookup for an absent key and a value |
| Hashes.SignExtended | src/hash.c:144-153 | a signed char as an unsigned int: the low byte, and ones above it from 128 on |
| Hashes.HashStringPrefix | src/hash.c:144-153 | the string hash depends on the first four characters only |
| Hashes.HashStringIsPrefix | src/hash.c:144-153 | the hash of a string is that of its first four characters |
| Hashes.HashStringOne | src/hash.c:144-153 | the hash of one character is its sign-extended code |
| Hashes.CompareString | src/hash.c:157-163 | 0 exactly for equal strings |
| Mutators.Value | src/mutator.c:49-52 | the value of the entry with that key, or NULL exactly when no entry has it |
| Mutators.StringFunctionsFit | src/mutator.c:27-30 | hash_func_string and hash_compare_string fit: equal strings hash equally |
| Mutators.DistinctKeys | src/mutator.c:42-45 | no two entries of a mutator have the same key |
| Mutators.AssignedValue | src/mutator.c:56-59 | after mutator_set the key holds the value (nothing for NULL) and every other key what it held |
| Mutators.New | src/mutator.c:27-30 | a fresh empty mutator |
| Mutators.Get | src/mutator.c:49-52 | the value held under the string |
| Mutators.Set | src/mutator.c:56-59 | the key holds the value, every other key what it held, and the mutator stays one |
| Mutators.Count | src/mutator.c:42-45 | the number of entries, whose keys are distinct |
| Mutators.Foreach | src/mutator.c:63-66 | every key and value in insertion order |
| Mutators.Reset | src/mutator.c:70-73 | no key holds a value |
| Strings.GetLength | src/string.c:157-163 | the characters before the first NUL |
| Strings.LengthFrom | src/string.c:157-163 | the length loop from position i finds the first NUL |
| Strings.GetSize | src/string.c:167-170 | the length plus the terminator |
| Strings.LengthIs | src/string.c:157-163 | a buffer whose first NUL is at n has length n |
| Strings.Set | src/string.c:174-183 | the destination is a copy of the source's contents |
| Strings.AtPositive | src/string.c:215-233 | every byte inside a string is non-zero |
| Strings.Compare | src/string.c:215-233 | 0 exactly for equal strings |
| Strings.CompareFrom | src/string.c:215-233 | the comparison loop from a common prefix gives 0 exactly for equal strings |
| Strings.CompareAntisymmetric | src/string.c:215-233 | swapping the operands negates the result |
| Strings.CompareFromAntisymmetric | src/string.c:215-233 | the same from a common prefix |
| Strings.CompareLength | src/string.c:237-255 | 0 for length 0, and 0 exactly when the first `length` characters agree |
| Strings.CompareLengthFrom | src/string.c:237-255 | the loop from position k gives 0 exactly when the prefixes agree |
| Strings.PrefixStep | src/string.c:237-255 | where the loop stops, the prefixes agree exactly when the bytes there do |
| Strings.CompareLengthAt | src/string.c:327-342 | a bounded compare at i gives 0 exactly when the key occurs at i |
| Strings.First | src/string.c:327-342 | the smallest occurrence, -1 for none, the length for an empty key |
| Strings.FirstFrom | src/string.c:327-342 | the first occurrence at or after i, none being before |
| Strings.Last | src/string.c:407-422 | the largest occurrence, -1 for none, the length for an empty key |
| Strings.LastFrom | src/string.c:407-422 | the last occurrence at or before i, none being after |
| Strings.Index | src/string.c:327-342 | string_index finds First |
| Strings.RIndex | src/string.c:407-422 | string_rindex finds Last |
| Strings.Find | src/string.c:316-323 | NULL exactly when the key does not occur; otherwise the tail from its first occurrence |
| Strings.AppendConcatenates | src/string.c:188-201 | succeeds exactly for a non-NULL suffix, then gives the concatenation; an empty suffix changes nothing |
| Strings.NewLength | src/string.c:103-119 | NULL exactly for length SIZE_MAX; otherwise a prefix of at most length characters, the whole string when shorter |
| Strings.NewAppend | src/string.c:49-68 | the first string followed by the others; "" for a NULL first string |
| Strings.Pieces | src/string.c:260-312 | at least one piece |
| Strings.Explode | src/string.c:260-312 | NULL for a NULL or empty separator, the pieces otherwise |
| Strings.ExplodeStep | src/string.c:279-301 | one cut of the loop keeps the pieces found followed by those of the rest equal to all pieces |
| Strings.PiecesUnfold | src/string.c:260-312 | the pieces of a text with a first separator at j |
| Strings.JoinCons | src/string.c:260-312 | joining a list of two or more |
| Strings.PiecesCut | src/string.c:260-312 | one cut: the text before the first separator and the text after it |
| Strings.JoinPieces | src/string.c:260-312 | the pieces joined by the separator give the string back |
| Strings.PiecesCount | src/string.c:260-312 | one piece more than non-overlapping occurrences |
| Strings.PiecesFree | src/string.c:260-312 | no piece contains the separator |
| Strings.FirstIs | src/string.c:327-342 | an occurrence with none before it is the first |
| Strings.FirstAround | src/string.c:327-342 | a one-character separator between two texts is found in the first or at the join |
| Strings.PiecesAround | src/string.c:260-312 | cutting a join at a one-character separator gives the pieces of both sides |
| Strings.ReplaceAllIsJoin | src/string.c:372-403 | replacing every occurrence is joining the pieces with the replacement |
| Strings.ReplaceAllStep | src/string.c:380-391 | one occurrence replaced before the rest |
| Strings.ReplaceAllUnfold | src/string.c:380-391 | the replacement of a text whose first occurrence is at j |
| Strings.ReplaceAllProperties | src/string.c:372-403 | a string without an occurrence is left as it is; replacing a string by itself changes nothing |
| Strings.ReplaceAll | src/string.c:372-403 | a string without the key is unchanged; otherwise the text before the first occurrence, then the replacement, begin the result |
| Strings.ReplaceLoopUnfold | src/string.c:380-391 | one turn of the loop of string_replace |
| Strings.Replace | src/string.c:372-403 | a NULL replacement gives -1 when the key occurs and 0 when it does not, the string unchanged either way; otherwise 0 and ReplaceAsWritten's string |
| Strings.ReplaceLoopSound | src/string.c:380-391 | what the loop accumulates, then its tail, is the full replacement |
| Strings.ReplaceStep | src/string.c:382-384 | one turn appends the text before the occurrence and the replacement |
| Strings.ReplaceLoopNull | src/string.c:380-392 | `ret` is still NULL after the loop only if it was NULL before and either nothing matched or the replacement is empty |
| Strings.ReplaceAsWrittenAgrees | src/string.c:372-403 | with a non-empty replacement, string_replace replaces every occurrence |
| Strings.ReplaceAsWrittenKeepsString | src/string.c:392-401 | replacing "a" by "" in "aab" leaves "aab", not "b" |
| Strings.ReplaceAsWritten | src/string.c:372-403 | string_replace as written leaves a string without the key unchanged |
| Strings.LeadingRun | src/string.c:346-368 | the leading run of trimmed characters |
| Strings.TrailingRun | src/string.c:426-453 | the trailing run of trimmed characters |
| Strings.LeadingRunUnique | src/string.c:346-368 | a run with those properties is the leading run |
| Strings.TrailingRunUnique | src/string.c:426-453 | a run with those properties is the trailing run |
| Strings.Nuls | src/string.c:205-211 | n NUL characters |
| Strings.Shifted | src/string.c:346-368 | the buffer after the left shift holds the string without its first n characters |
| Strings.ShiftedIs | src/string.c:346-368 | a buffer that agrees with Shifted everywhere is it |
| Strings.Nulled | src/string.c:426-453 | the buffer with the last n characters overwritten holds the string without them |
| Strings.NulledIs | src/string.c:426-453 | a buffer that agrees with Nulled everywhere is it |
| Strings.Clear | src/string.c:205-211 | every character before the terminator becomes NUL, nothing else changes |
| Strings.LTrim | src/string.c:346-368 | removes the leading run by shifting the rest left in place and returns its length |
| Strings.RTrim | src/string.c:426-453 | overwrites the trailing run with NULs and returns its length |
| Strings.TrimString | src/string.c:457-460 | what string_trim keeps: a contiguous part that neither starts nor ends with a trimmed character, everything cut off being trimmed |
| Strings.TrimCut | src/string.c:457-460 | everything outside the two runs is kept and everything in them is trimmed |
| Strings.TrimEnds | src/string.c:457-460 | what is kept neither starts nor ends with a trimmed character |
| Strings.TrimStringIs | src/string.c:457-460 | TrimString cuts the leading run and then the trailing run of the rest |
| Strings.TrimStringIdempotent | src/string.c:457-460 | trimming twice trims nothing more |
| Strings.TrimmedContents | src/string.c:457-460 | ltrim then rtrim leaves the trimmed string in the buffer |
| Strings.TrimOfCut | src/string.c:457-460 | the trailing cut of the rest after the leading cut is TrimString |
| Strings.Trim | src/string.c:457-460 | the buffer holds TrimString of its string and the result is the number of characters removed |
| Configs.SectionOf | src/config.c:88 | a section's variables form a well-formed table |
| Configs.ValueOf | src/config.c:80-107 | a value exactly when the section (NULL as "") holds the variable |
| Configs.Stored | src/config.c:111-152 | config_set keeps both levels well formed |
| Configs.AssignedSection | src/config.c:127-138 | replacing a section's variables keeps the table well formed and the other sections |
| Configs.StoredSection | src/config.c:127-148 | the variables a section holds after config_set |
| Configs.StoredGet | src/config.c:111-152 | after config_set the section exists, the variable holds the value ("" included, nothing for NULL) and every other variable what it held |
| Configs.StoredGetSame | src/config.c:139-148 | after config_set the variable holds the value |
| Configs.StoredGetOther | src/config.c:111-152 | after config_set every other variable holds what it held |
| Configs.Names | src/config.c:159-175 | the section names in order |
| Configs.Span | src/config.c:262-348 | the end of the run of printable characters other than the stop character |
| Configs.Run | src/config.c:262-348 | such a run holds no NUL |
| Configs.ReadSection | src/config.c:269-295 | the name up to ']', or nothing when a newline, NUL or the end comes first |
| Configs.ReadVariable | src/config.c:297-320 | the name up to '=', or nothing when a newline, NUL or the end comes first |
| Configs.ReadValue | src/config.c:322-348 | the rest of the line, or nothing at a NUL |
| Configs.SkipComment | src/config.c:226-232 | the position after the next newline, or the end |
| Configs.Parse | src/config.c:210-260 | the table stays well formed, and the result is 0 at the end or 1 for a syntax error |
| Configs.LoadComment | src/config.c:226-232 | the comment loop gives SkipComment |
| Configs.LoadSection | src/config.c:269-295 | the character loop gives ReadSection |
| Configs.LoadVariable | src/config.c:297-320 | the character loop gives ReadVariable |
| Configs.LoadValue | src/config.c:322-348 | the character loop gives ReadValue |
| Configs.Lines | src/config.c:515-532 | one line per variable, in order |
| Configs.TextStep | src/config.c:461-532 | the text of one more item |
| Configs.LinesStep | src/config.c:515-532 | the lines of one more variable |
| Configs.WriteLines | src/config.c:515-532 | writes each variable as a line with the separator |
| Configs.WriteDefault | src/config.c:461-494 | the first pass writes the default section's lines |
| Configs.SaveDefault | src/config.c:483-494 | only the section "" writes its lines |
| Configs.DefaultStep | src/config.c:483-494 | one more section in the first pass |
| Configs.WriteSection | src/config.c:496-513 | a named section: its header, then its lines |
| Configs.SaveNamed | src/config.c:496-513 | the section "" is skipped in the second pass |
| Configs.WriteNamed | src/config.c:461-513 | the second pass writes each named section |
| Configs.NamedStep | src/config.c:496-513 | one more section in the second pass |
| Configs.Render | src/config.c:461-532 | the saved text: empty for an empty table, otherwise ending with a newline |
| Configs.Loaded | src/config.c:210-260 | a file that cannot be opened gives -errno and changes nothing; otherwise 0 or 1 |
| Configs.SystemLoaded | src/config.c:370-390 | the table stays well formed |
| Configs.UserLoaded | src/config.c:394-419 | the table stays well formed |
| Configs.PreferencesLoaded | src/config.c:352-366 | never -ENOENT; the system loader's other failures are returned; otherwise the user loader's outcome, -ENOENT counting as 0 |
| Configs.Slash | src/config.c:377-379 | the '/' test through string_find |
| Configs.PathConcat | src/config.c:382-385 | the strings string_new_append joins |
| Configs.PiecesAfter | src/config.c:382-385 | one more '/'-free component at the end of a path |
| Configs.SystemPathPieces | src/config.c:382-385 | the system path is SYSCONFDIR's components, then exactly vendor, package and file name |
| Configs.ConfigDir | src/config.c:411-414 | ".config" holds no '/' |
| Configs.UserPathJoined | src/config.c:411-414 | $HOME, ".config", vendor, package and file name, each after a '/' |
| Configs.UserPathPieces | src/config.c:411-414 | the user path is $HOME's components, then ".config", vendor, package and file name |
| Configs.SystemPath | src/config.c:382-385 | the system path starts with SYSCONFDIR and a '/' and ends with '/' and the file name |
| Configs.UserPath | src/config.c:411-414 | the user path starts with $HOME and "/.config/" and ends with '/' and the file name |
| Configs.Config.constructor | src/config.c:64-67 | an empty configuration |
| Configs.Config.Get | src/config.c:80-107 | config_get gives ValueOf and changes nothing |
| Configs.Config.Set | src/config.c:111-152 | a NULL or empty variable gives -EINVAL and changes nothing; otherwise 0 and the table becomes Stored's |
| Configs.Config.Load | src/config.c:210-260 | the table and result become Loaded's |
| Configs.Config.LoadStep | src/config.c:224-252 | one turn of the loop leaves the outcome to come unchanged |
| Configs.Config.LoadAssignment | src/config.c:239-250 | a key=value line sets the variable in the current section |
| Configs.Config.LoadPreferencesSystem | src/config.c:370-390 | the table and result become SystemLoaded's |
| Configs.Config.LoadPreferencesUser | src/config.c:394-419 | the table and result become UserLoaded's |
| Configs.Config.LoadPreferences | src/config.c:352-366 | the table and result become PreferencesLoaded's |
| Configs.Config.Save | src/config.c:461-481 | a file that cannot be created gives -errno; otherwise the text written is Render's |
| Configs.Config.Reset | src/config.c:427-452 | returns 0 and no section is left |
| Configs.Config.Foreach | src/config.c:159-175 | the callback on each section name in order; its meaning is carried by ConfigCtl.FoldSections and ConfigCtl.ListingHolds |
| Configs.Config.ForeachSection | src/config.c:182-201 | the callback on each variable and value of the section, nothing for a missing one; its meaning is carried by ConfigCtl.FoldSections and ConfigCtl.ListingHolds |
| ConfigRoundTrip.RoundTrip | src/config.c:210-532 | under the format's restrictions, loading the saved text into an empty configuration succeeds and every section holds every variable with the same value |
| ConfigRoundTrip.RenderPieces | src/config.c:461-532 | the saved text is the items' pieces read from the front |
| ConfigRoundTrip.TextPieces | src/config.c:461-532 | the separator scheme of config_save, read as pieces |
| ConfigRoundTrip.ParsePieces | src/config.c:210-348 | loading a text that holds the pieces replays the items |
| ConfigRoundTrip.Replay | src/config.c:239-250 | replaying lines and headers keeps the table well formed |
| ConfigRoundTrip.ReplayConcat | src/config.c:210-260 | replaying two runs of items is replaying one after the other |
| ConfigRoundTrip.LineParses | src/config.c:239-250 | loading an assignment line stores it |
| ConfigRoundTrip.HeaderParses | src/config.c:233-238 | loading a header, with the blank line before it, changes the section |
| ConfigRoundTrip.ReplayLines | src/config.c:515-532 | loading a section's lines gives each key its value and changes nothing else |
| ConfigRoundTrip.ReplayDefault | src/config.c:483-494 | the first pass gives the default section's variables |
| ConfigRoundTrip.ReplayNamed | src/config.c:496-513 | the second pass gives every named section's variables |
| Arguments.Chr | tools/configctl.c:67-76 | strchr: the first occurrence or NULL |
| Arguments.ChrIs | tools/configctl.c:67-76 | a first occurrence is what strchr finds |
| Arguments.SectionPart | tools/configctl.c:67-74 | the cut at the first '.': no section without one, otherwise the section has no '.' |
| Arguments.ValuePart | tools/configctl.c:75-76 | the cut at the first '=' only when writing; the key then has no '=' |
| Arguments.Split | tools/configctl.c:65-76 | the argument split at its first '.' and, with -w, the rest at its first '=' |
| Arguments.SectionPartOf | tools/configctl.c:67-74 | the cut gives back a section without '.' |
| Arguments.ValuePartOf | tools/configctl.c:75-76 | the cut gives back a key without '=' |
| Arguments.SplitJoined | tools/configctl.c:65-76 | splitting undoes joining for every canonical argument |
| Arguments.Strchr | tools/configctl.c:67 | the strchr loop on the array finds Chr |
| Arguments.CutSection | tools/configctl.c:67-74 | the first '.' is overwritten by NUL and the key starts after it |
| Arguments.CutValue | tools/configctl.c:75-76 | with -w the first '=' of the key is overwritten by NUL; nothing before the key changes |
| Arguments.SplitInPlace | tools/configctl.c:65-76 | the C strings left in the argument are those of Split |
| Arguments.SplitArgument | tools/config.c:123-132 | the split argument is Split's |
| ConfigCtl.Shown | tools/configctl.c:149-158 | a section is shown only when not NULL and not empty |
| ConfigCtl.Line | tools/configctl.c:149-158 | verbose: `section.variable=value`, the '.' only for a non-empty section; otherwise the value alone |
| ConfigCtl.LineReadsBack | tools/configctl.c:149-158 | a verbose line read back with -w is the same assignment |
| ConfigCtl.Done | tools/configctl.c:85-107 | a get prints the value when it exists, only the result in quiet mode; a set prints its line |
| ConfigCtl.DoneKeepsOthers | tools/configctl.c:85-107 | a set leaves every other variable as it was |
| ConfigCtl.Do | tools/configctl.c:85-107 | _configctl_do on the configuration gives Done's table, result and lines |
| ConfigCtl.Or | tools/configctl.c:76 | `ret |= r` on 0 and -1 |
| ConfigCtl.Sweep | tools/configctl.c:65-76 | the loop over the arguments keeps the table well formed and gives 0 or -1 |
| ConfigCtl.Run | tools/configctl.c:48-83 | a file that does not load fails first; the file is saved only with -w and only when every argument succeeded |
| ConfigCtl.Saved | tools/configctl.c:77-80 | -1 when config_save fails, otherwise 0 and the text |
| ConfigCtl.SaveChecked | tools/configctl.c:77-80 | config_save and its test give Saved's |
| ConfigCtl.Configctl | tools/configctl.c:48-83 | _configctl gives Run's result, lines and saved text |
| ConfigCtl.EachArgument | tools/configctl.c:65-76 | the loop gives Sweep's |
| ConfigCtl.Argument1 | tools/configctl.c:67-76 | one argument split in place then handed to _configctl_do |
| ConfigCtl.QuietSweep | tools/configctl.c:90-94 | quiet without -w: nothing changes or prints, and 0 exactly when every variable exists |
| ConfigCtl.AllExistMeans | tools/configctl.c:90-94 | the accumulated existence test means every variable exists |
| ConfigCtl.QuietRun | tools/configctl.c:48-94 | -q prints and saves nothing and gives 0 exactly when the file loads and every variable exists |
| ConfigCtl.VariableLines | tools/configctl.c:139-145 | one verbose line per variable |
| ConfigCtl.VariableLinesAt | tools/configctl.c:139-145 | line j is the verbose line of variable j |
| ConfigCtl.FoldVariables | tools/configctl.c:139-145 | visiting a section's variables appends their lines |
| ConfigCtl.SectionAt | tools/configctl.c:131-137 | the section named by entry k is that entry's variables |
| ConfigCtl.FoldSections | tools/configctl.c:131-137 | visiting the sections from k appends their listing |
| ConfigCtl.Listing | tools/configctl.c:115-145 | the lines of every section in turn; none for an empty table |
| ConfigCtl.Listed | tools/configctl.c:115-129 | -1 when the file does not load, otherwise 0 and the listing |
| ConfigCtl.List | tools/configctl.c:115-129 | _configctl_list gives Listed's |
| ConfigCtl.ListTable | tools/configctl.c:124-127 | config_foreach with _list_foreach gives the listing |
| ConfigCtl.ListingHolds | tools/configctl.c:115-145 | the line of variable j of section i sits after those of the sections before it |
| ConfigCtl.ListingLength | tools/configctl.c:115-145 | one line per variable |
| ConfigCtl.FlaggedUnknown | tools/configctl.c:194-210 | the usage exactly when getopt gives '?' |
| ConfigCtl.FlaggedSwitches | tools/configctl.c:194-210 | -a and -w are set exactly when given |
| ConfigCtl.FlaggedFile | tools/configctl.c:194-210 | the file name is that of the last -f |
| ConfigCtl.FlaggedVerbose | tools/configctl.c:194-210 | the verbosity is that of the last -q or -v, 0 without either |
| ConfigCtl.Options | tools/configctl.c:194-210 | the getopt loop gives Flagged's settings |
| ConfigCtl.ListExit | tools/configctl.c:216 | as intended: 0 when the listing succeeds, 2 when it fails |
| ConfigCtl.ListExitAsWritten | tools/configctl.c:216 | the listing's result taken as a truth value: 0 on failure, 2 on success |
| ConfigCtl.ListExitInverted | tools/configctl.c:216 | an empty file lists without error, yet -a exits with 2 as written |
| ConfigCtl.Main | tools/configctl.c:182-222 | the usage exits with 1; -a exits as written, 2 when the listing succeeds and 0 when it fails; otherwise 0 on success and 2 on failure |
| ConfigCtl.MainList | tools/configctl.c:211-217 | as written, -f file -a exits with 2 and prints the listing when the file loads, 0 and nothing otherwise; never ListExit's status |
| ConfigCtl.MainRun | tools/configctl.c:218-221 | without -a, 0 exactly when _configctl succeeds |
| ConfigCtl.MainUsage | tools/configctl.c:182-222 | the usage exactly for '?', -a with -q, -v, -w, an operand or no -f, and otherwise no -f or no operand |
| ConfigCtl.Command | tools/configctl.c:182-222 | main gives Main's status, lines and saved text, -a exiting as written |
| ConfigTool.Line | tools/config.c:53-63 | verbose: `section.key=value` with the section and '.' for any non-NULL section; otherwise the value |
| ConfigTool.LineReadsBack | tools/config.c:53-63 | a verbose line read back with -w is the same assignment |
| ConfigTool.Assigned | tools/config.c:57-68 | the variable holds the value, or the table is unchanged for an empty name |
| ConfigTool.AssignedKeepsOthers | tools/config.c:57-68 | every other variable is unchanged |
| ConfigTool.Configured | tools/config.c:41-73 | a file that does not load gives 1; a get prints the value or gives 1; a set prints its line, then saves even if the set failed |
| ConfigTool.Configure | tools/config.c:41-73 | _config gives Configured's |
| ConfigTool.SetAndSave | tools/config.c:57-68 | config_set then config_save whatever config_set gave |
| ConfigTool.SetSaved | tools/config.c:64-68 | 0 exactly when config_set accepted and config_save succeeded, 1 otherwise; without a write error the text saved is Render's |
| ConfigTool.SaveText | tools/config.c:64-68 | config_save fails exactly on a write error |
| ConfigTool.FlaggedVerbose | tools/config.c:105-120 | -v is in effect exactly when given |
| ConfigTool.Main | tools/config.c:96-134 | exit status 0, 1 or 2; 1 exactly for the usage |
| ConfigTool.MainUsage | tools/config.c:121-122 | the usage exactly for '?', no -f, or other than one operand |
| ConfigTool.MainRuns | tools/config.c:123-133 | with -f and one operand, 0 exactly when _config succeeds on the split argument |
| ConfigTool.Command | tools/config.c:96-134 | main gives Main's |
| Tokens.AsInt | src/token.c:72-75 | the unsigned code read back as an int |
| Tokens.AsCode | src/token.c:100-103 | the int stored in the unsigned code: congruent modulo 2^32, and itself when it is in range |
| Tokens.CodeReadsBack | src/token.c:100-103 | every int code set is read back as it was |
| Tokens.Token.constructor | src/token.c:44-58 | code 0, no string, the given line and column |
| Tokens.Token.GetCode | src/token.c:72-75 | an int, the one whose unsigned code is stored |
| Tokens.Token.SetCode | src/token.c:100-103 | the code reads back as set; nothing else changes |
| Tokens.Token.SetCol | src/token.c:107-110 | the column is set; nothing else changes |
| Tokens.Token.SetLine | src/token.c:114-117 | the line is set; nothing else changes |
| Tokens.Token.SetString | src/token.c:121-130 | a copy replaces the string; when the copy fails, 1 and no string |
| Tokens.Token.InSet | src/token.c:134-142 | 1 exactly when the code occurs before the TC_NULL terminator |
| Tokens.NotMember | src/token.c:134-142 | a code not met before the terminator is not in the set |
| Parsers.CharOf | src/parser.c:167 | a signed char: bytes from 128 on come out negative |
| Parsers.Advanced | src/parser.c:157-163 | after a newline line + 1 and column 1, otherwise the next column, nothing after EOF |
| Parsers.ReadAsWritten | src/parser.c:150-171 | a read at most at the end of the string: the next byte, or EOF at the end, and string_pos one further in both cases |
| Parsers.ScanAsWritten | src/parser.c:150-171 | string_pos moves past the end, so the second read after the end is out of bounds |
| Parsers.ScanPastEnd | src/parser.c:164-168 | the first read at the end gives EOF and the next one reads outside the string |
| Parsers.Scan | src/parser.c:150-171 | as intended: the next byte, or EOF at the end on this and every later call |
| Parsers.ScanAgrees | src/parser.c:150-171 | inside the string both scanners agree |
| Parsers.Scans | src/parser.c:401-411 | n scans as written, as many as stay inside the string: string_pos n further and n characters |
| Parsers.ScansInOrder | src/parser.c:164-169 | as written: the bytes in order, NULs included, then EOF once; the scan after that reads outside the string |
| Parsers.AfterBounds | src/parser.c:157-163 | line and column counts stay within one more than the length |
| Parsers.ScansTrackPosition | src/parser.c:157-163 | after character n the cursor holds its line and column |
| Parsers.Chain | src/parser.c:104-122 | every non-negative filter result is added to the lookahead |
| Parsers.Filtered | src/parser.c:94-123 | parser_scan_filter over the scanner as written: lookahead re-delivers, otherwise scans, then the filters; string_pos stays at most one past the end |
| Parsers.Delivered | src/parser.c:98-103 | the lookahead path keeps the position and hands the last character again |
| Parsers.LookaheadRedelivers | src/parser.c:98-103 | with a lookahead pending nothing is scanned and one lookahead is used |
| Parsers.NoFilterScans | src/parser.c:94-123 | without filters or lookahead the filtered scan is the scanner as written |
| Parsers.FilterAddsLookahead | src/parser.c:110-121 | a filter's non-negative result is added to the lookahead |
| Parsers.FilterFails | src/parser.c:110-118 | a negative filter result sets the error and gives EOF |
| Parsers.Tried | src/parser.c:299-310 | the callbacks in order until one gives at most 0 |
| Parsers.Ask | src/parser.c:299-305 | the callback loop gives Tried's |
| Parsers.TriedStep | src/parser.c:299-305 | the loop stops on a result of at most 0, otherwise goes on |
| Parsers.Got | src/parser.c:279-311 | the result, whether the token is kept, and the state left, with the scanner as written |
| Parsers.GotMeaning | src/parser.c:299-310 | kept exactly when the first callback at most 0 gives 0; dropped with 0 only at EOF with no negative result |
| Parsers.TokenPastEnd | src/parser.c:279-311 | at the end of the string parser_get_token scans EOF, a callback can keep it as a token with 0, and string_pos is left past the end with last EOF, so the next call reads outside the string |
| Parsers.FirstOf | src/parser.c:359-361 | the first entry of the function, or the count |
| Parsers.RemoveInverted | src/parser.c:353-397 | as written, a registered entry stays and gives 1; an absent one gives 0 and the count drops, to SIZE_MAX from an empty list |
| Parsers.RemovedAsWritten | src/parser.c:353-373 | 1 exactly when the function is registered, the count kept; otherwise 0 and the count one less, SIZE_MAX from 0 |
| Parsers.RemovedListAsWritten | src/parser.c:353-397 | the list as written: kept when registered; otherwise its last entry dropped, and its length the count when the count does not wrap |
| Parsers.RemovedListInverted | src/parser.c:353-397 | the result as written is the opposite of the intended one, and the two lists agree only for an empty list |
| Parsers.Removed | src/parser.c:353-397 | as intended: 1 and the list kept exactly when the function is not registered; otherwise 0 and one entry fewer |
| Parsers.RemovedMeaning | src/parser.c:353-397 | as intended: 1 and no change exactly when the function is not registered; otherwise 0 and its first entry removed, the others kept in order |
| Parsers.Parser.FromString | src/parser.c:200-245 | a copy of exactly length bytes, line 1, column 1, last EOF, no lookahead, error, filter or callback |
| Parsers.Parser.ScanString | src/parser.c:150-171 | as written: the fields become ReadAsWritten's cursor, string_pos moving on even at the end |
| Parsers.Parser.ScanPlain | src/parser.c:401-411 | parser_scan is the scanner as written |
| Parsers.Parser.ScanFilter | src/parser.c:94-123 | the state and character become Filtered's, over the scanner as written |
| Parsers.Parser.GetToken | src/parser.c:279-311 | the result, token and state become Got's, over the scanner as written |
| Parsers.Parser.Try | src/parser.c:299-305 | the callback loop on the fields gives Tried's |
| Parsers.Parser.AddCallback | src/parser.c:316-329 | appended after the others |
| Parsers.Parser.AddFilter | src/parser.c:333-349 | appended after the others |
| Parsers.Parser.RemoveCallback | src/parser.c:353-373 | as written: the result and callbacks become RemovedListAsWritten's; nothing else changes |
| Parsers.Parser.RemoveFilter | src/parser.c:377-397 | as written: the result and filters become RemovedListAsWritten's; nothing else changes |
| Parsers.Find | src/parser.c:359-361 | the search loop finds FirstOf |
| Variables.Code | src/variable.c:220-228 | the type byte of a type |
| Variables.TypeOf | src/variable.c:220-228 | the type of a code |
| Variables.CodeReadsBack | src/variable.c:220-228 | codes identify types |
| Variables.Width | src/variable.c:188-217 | 1, 2, 4 or 8 bytes for the integer types |
| Variables.Pow256 | src/variable.c:188-217 | 256 to the power w; a helper for LittleEndian, Unsigned and Decoded |
| Variables.New | src/variable.c:46-111 | VT_NULL for a NULL value whatever the type; otherwise the type with the value |
| Variables.Union | src/variable.c:115-118 | the value a variable's union holds |
| Variables.NewCopyAsWritten | src/variable.c:115-118 | the pointer's bytes are copied as the string |
| Variables.CharsUpTo | src/variable.c:115-118 | the bytes before the first NUL |
| Variables.CopyLosesString | src/variable.c:115-118 | "abc" stored at 0x4010 copies as the two characters 0x10 and 0x40 |
| Variables.NewCopy | src/variable.c:115-118 | the same type and value |
| Variables.LittleEndian | src/variable.c:188-217 | w bytes, least significant first |
| Variables.Unsigned | src/variable.c:188-217 | the number bytes encode |
| Variables.UnsignedLittleEndian | src/variable.c:188-217 | reading back x's bytes gives x modulo 256^w |
| Variables.DivMod256 | src/variable.c:188-217 | x mod 256p from its low byte and the rest; an arithmetic helper for UnsignedLittleEndian |
| Variables.ModUnique | src/variable.c:188-217 | the remainder in range is unique; an arithmetic helper for DivMod256, Decoded and IntegerReadsBack |
| Variables.MulSign | src/variable.c:188-217 | a non-zero multiple is at least m away from 0; an arithmetic helper for ModUnique and ZeroMultiple |
| Variables.Payload | src/variable.c:188-217 | the integer's width in two's complement, or the string without terminator |
| Variables.Serialized | src/variable.c:181-229 | an empty payload with the flag gives -1 and leaves the buffer; otherwise the type byte (with the flag) then the payload |
| Variables.Serialize | src/variable.c:181-229 | variable_serialize gives Serialized's result and buffer |
| Variables.OverlayAfter | src/variable.c:220-226 | writing after a one-byte buffer appends |
| Variables.DeserializeTypeAsWritten | src/variable.c:148-153 | always NULL, the size unchanged |
| Variables.DeserializeAsWritten | src/variable.c:122-144 | always NULL; 1 on empty input |
| Variables.SerializedNotRead | src/variable.c:148-153 | an int8 of -1 serialises to [1, 255] and reads back as NULL |
| Variables.Decoded | src/variable.c:188-217 | the integer of the type whose residue the bytes encode |
| Variables.PowEven | src/variable.c:188-217 | 256^w is even for w > 0; an arithmetic helper for Decoded |
| Variables.CharsOf | src/variable.c:213-217 | the string of the bytes exactly when none is NUL |
| Variables.DeserializeType | src/variable.c:148-153 | a variable of the type byte's type, or the bytes an integer needs |
| Variables.Deserialize | src/variable.c:122-144 | 1 byte needed on empty input |
| Variables.DeserializeSerialized | src/variable.c:122-153 | reading back what is serialised with the type byte gives the variable and consumes every byte |
| Variables.IntegerReadsBack | src/variable.c:188-217 | an integer payload decodes as its value |
| Variables.DecodedUnique | src/variable.c:188-217 | two values of a type with the same residue are equal |
| Variables.ModDiff | src/variable.c:188-217 | equal residues differ by a multiple; an arithmetic helper for DecodedUnique |
| Variables.ZeroMultiple | src/variable.c:188-217 | the only multiple strictly between -m and m is 0; an arithmetic helper for DecodedUnique |
| Variables.BytesOfChars | src/variable.c:213-217 | single-byte characters read back as the string |
| AppInterfaces.ArgWidth | src/appinterface.c:175-196 | 1, 2, 4 or 8 bytes for the integer types, 0 for the others |
| AppInterfaces.Named | src/appinterface.c:162-169 | the first call with the name, or the count |
| AppInterfaces.AppendedAsWritten | src/appinterface.c:86-115 | a known name gives 1 and no change; otherwise appended, 0 only when its index equals its argument count |
| AppInterfaces.BuiltAsWrittenCount | src/appinterface.c:117-131 | building as written counts at most one failure per call and keeps at most every call |
| AppInterfaces.Appended | src/appinterface.c:86-115 | a known name gives 1 and no change; otherwise appended with 0 |
| AppInterfaces.BuiltDistinct | src/appinterface.c:117-131 | calls with distinct names all register, in order |
| AppInterfaces.NewAsWritten | src/appinterface.c:48-84 | the table of "Session" or "Hello" unless building fails; NULL for any other name |
| AppInterfaces.SessionFailsAsWritten | src/appinterface.c:86-126 | "Session" cannot be built as written; "Hello" can |
| AppInterfaces.SessionCountAsWritten | src/appinterface.c:117-126 | each of the four registrations of "Session" reports 1 |
| AppInterfaces.SessionHalfAsWritten | src/appinterface.c:117-122 | the first two registrations of "Session" each report 1 and are kept |
| AppInterfaces.HelloBuildsAsWritten | src/appinterface.c:128-131 | the registration of "Hello" reports 0 |
| AppInterfaces.BuiltAsWrittenStep | src/appinterface.c:114 | the next of distinct calls is appended, with 1 exactly when its index differs from its argument count |
| AppInterfaces.SessionDistinct | src/appinterface.c:117-126 | the calls of "Session" have distinct names |
| AppInterfaces.NewKnown | src/appinterface.c:48-84 | as intended: exactly the two known names give an interface, with all its calls |
| AppInterfaces.New | src/appinterface.c:48-84 | as intended: an interface exactly for "Session" and "Hello" |
| AppInterfaces.Spliced | src/appinterface.c:203-225 | bytes written over a buffer from pos on |
| AppInterfaces.Sent | src/appinterface.c:171-199 | the argument loop stops at the first unsendable type or argument that does not fit |
| AppInterfaces.SentMeaning | src/appinterface.c:171-199 | every argument is sent exactly when every type can be and they fit; then their bytes in declared order |
| AppInterfaces.Called | src/appinterface.c:154-201 | -1 for an unknown call; a name that does not fit is written as far as it goes and gives -1 |
| AppInterfaces.CalledMeaning | src/appinterface.c:154-201 | success exactly when registered, sendable and fitting; the message is the name's characters then the arguments' bytes |
| AppInterfaces.AppInterface.constructor | src/appinterface.c:48-84 | no call yet |
| AppInterfaces.AppInterface.Append | src/appinterface.c:86-115 | as written: the result and calls become AppendedAsWritten's |
| AppInterfaces.AppInterface.NewSession | src/appinterface.c:117-126 | as written: the four calls of "Session", and 4 for the four registrations that report 1 |
| AppInterfaces.AppInterface.NewHello | src/appinterface.c:128-131 | the call of "Hello" |
| AppInterfaces.AppInterface.CallInto | src/appinterface.c:154-201 | the result and the bytes written become Called's |
| AppInterfaces.SendArguments | src/appinterface.c:171-199 | the argument loop gives Sent's |
| AppInterfaces.SplicedAppend | src/appinterface.c:203-211 | a run spliced after another extends it |
| AppInterfaces.SplicedTwice | src/appinterface.c:154-201 | the name and then the arguments as one run |
| AppInterfaces.SendString | src/appinterface.c:213-225 | the name's characters from pos as far as the buffer goes; fails when it fills first |
| AppInterfaces.Fitting | src/appinterface.c:213-225 | the characters that fit before buflen |
| AppInterfaces.SplicedSnoc | src/appinterface.c:213-225 | one more byte after a spliced run extends it |
| AppInterfaces.SendBuffer | src/appinterface.c:203-211 | copies and advances pos when it fits; otherwise 1 and nothing written |
| AppInterfaces.NewInterface | src/appinterface.c:48-84 | as written: null exactly when NewAsWritten gives none, that is for every name but "Hello"; otherwise a fresh interface with the call of "Hello" |
| Events.RemainingAsWritten | src/event.c:220-237 | the wait as written: on a borrow, now.usec - t.usec |
| Events.RemainingBorrowWrong | src/event.c:231-236 | from 5.9 s to 10.1 s the wait comes out as 4.8 s, not 4.2 s |
| Events.Remaining | src/event.c:224-237 | the exact difference in microseconds, usec in range; equal to the as-written wait without a borrow |
| Events.Quit | src/event.c:279-283 | one loop level less, never below 0 |
| Events.MaxFd | src/event.c:403-423 | at least -1 and every fd of the list |
| Events.Kept | src/event.c:403-423 | no longer than the list |
| Events.KeptMembers | src/event.c:403-423 | the entries kept are those for other fds |
| Events.KeptShorter | src/event.c:403-423 | an entry for fd makes the list shorter |
| Events.KeptNone | src/event.c:403-423 | without an entry for fd nothing is removed |
| Events.InitialConsistent | src/event.c:95-117 | a new Event is consistent |
| Events.Watched | src/event.c:298-340 | the entry appended, the fd in its set, fdmax at least fd |
| Events.WatchedConsistent | src/event.c:298-340 | registering keeps the Event consistent |
| Events.Unwatched | src/event.c:385-423 | every entry for fd leaves its list and fdmax is from what is left |
| Events.UnwatchedMeaning | src/event.c:385-423 | exactly the fd's entries removed, the others in order, the other list unchanged, fdmax the largest left or -1 |
| Events.KeptConsistent | src/event.c:403-423 | the list and fd set left agree |
| Events.OtherKept | src/event.c:385-401 | scanning the other list for fd -1 leaves it |
| Events.KeptFds | src/event.c:403-423 | the fds left after removing fd |
| Events.TimedOut | src/event.c:344-379 | the timeout appended at now + interval, the wait lowered to the interval when sooner |
| Events.TimeoutPass | src/event.c:193-241 | as intended: the wait left comes no later than the starting one |
| Events.TimeoutPassMeaning | src/event.c:193-241 | as intended: the entries before i kept, each later one treated on its own in order; the wait is the starting one or a candidate, none sooner |
| Events.PendingMeans | src/event.c:218-239 | TimeoutPassMeaning for a pending entry, with the exact remaining time |
| Events.DroppedMeans | src/event.c:200-205 | TimeoutPassMeaning for an expired entry whose callback gives non-zero |
| Events.RescheduledMeans | src/event.c:206-216 | TimeoutPassMeaning for an expired entry whose callback gives 0 |
| Events.EarlierMin | src/event.c:208-216 | the smaller of two times not after x means neither is |
| Events.Difference | src/event.c:220-222 | the field-by-field difference: the exact difference in microseconds, and Remaining without a borrow |
| Events.PendingAsWritten | src/event.c:218-239 | as written: RemainingAsWritten when the raw difference comes before the wait, and then before it; otherwise the wait |
| Events.TimeoutPassAsWritten | src/event.c:193-241 | as written: the wait left comes no later than the starting one |
| Events.PassAsWrittenEntries | src/event.c:193-217 | the pass as written keeps, removes and reschedules the entries and counts the quits as the intended one does |
| Events.PassAsWrittenAgrees | src/event.c:218-239 | when no pending entry needs a borrow, the pass as written is the intended one |
| Events.PassBorrowWrong | src/event.c:231-236 | a timeout at 10.1 s seen at 5.9 s leaves the wait 4.8 s as written, 4.2 s intended |
| Events.PassKeepsLaterWait | src/event.c:220-222 | as written a 3.9 s wait is kept over a pending 3.8 s one, whose raw difference is (4, -200000) |
| Events.Rewait | src/event.c:447-471 | as written: the starting wait, or a wait of non-negative seconds |
| Events.EntryWait | src/event.c:457-469 | as written: the exact difference without a borrow; on one, RemainingAsWritten, or 0 seconds when the seconds are equal |
| Events.RewaitBorrowWrong | src/event.c:464-469 | unregistering leaves a timeout at 10.1 s seen at 5.9 s with a wait of 4.8 s, not 4.2 s |
| Events.RewaitChoice | src/event.c:447-471 | the recomputed wait is the starting one, 0, or EntryWait of one entry whose seconds have not passed |
| Events.Unfn | src/event.c:433-443 | no longer than the list |
| Events.UnfnMembers | src/event.c:433-443 | the timeouts kept are those of other functions, in order |
| Events.IoPass | src/event.c:250-275 | the pass over the reads or writes |
| Events.IoPassConsistent | src/event.c:250-275 | an I/O pass keeps the Event consistent |
| Events.IoDropConsistent | src/event.c:262-268 | the unregistering step of an I/O pass keeps the Event consistent |
| Events.IoPassDrops | src/event.c:256-274 | every later entry visited; exactly the ready ones whose callback gives non-zero unregistered, the rest kept in order |
| Events.FencedDrops | src/event.c:256-274 | IoPassDrops for a list within fdmax |
| Events.FencedDropped | src/event.c:262-268 | the step that unregisters an entry |
| Events.FencedStays | src/event.c:256-274 | the step that keeps an entry |
| Events.TakeStep | src/event.c:256-274 | the prefix up to i then entry i |
| Events.DroppedStep | src/event.c:262-268 | the list after unregistering entry i is the old one without it |
| Events.DroppedPass | src/event.c:262-268 | at an entry it unregisters, the pass goes on from the state after the unregistration, at the same index |
| Events.DroppedList | src/event.c:403-423 | with distinct fds, unregistering entry i's fd removes that entry only and keeps the list within fdmax |
| Events.StayStep | src/event.c:256-274 | keeping entry i leaves the lists |
| Events.KeptDistinct | src/event.c:403-423 | with distinct fds, removing the fd of entry i removes that entry only |
| Events.KeptOnly | src/event.c:403-423 | the first half of KeptDistinct |
| Events.RemovedDistinct | src/event.c:403-423 | the second half of KeptDistinct |
| Events.Pass | src/event.c:166-179 | one turn of event_loop: the timeouts become Survivors' of the pass |
| Events.Looped | src/event.c:154-181 | a return of 0 means the counter reached 0, or nothing is left to wait for |
| Events.Loop | src/event.c:154-181 | event_loop returns 0 only when the counter reached 0 or nothing is watched and no timeout is left |
| Events.PassConsistent | src/event.c:154-181 | a pass keeps the Event consistent |
| Events.LoopedConsistent | src/event.c:154-181 | event_loop keeps the Event consistent however it ends |
| Events.LoopIdleReturns | src/event.c:154-181 | with nothing registered event_loop returns 0 at once |
| Events.LoopStops | src/event.c:157-163 | the loop ends after the pass in which the counter reaches 0 |
| Events.IdleQuits | tests/event.c:25-46 | an idle callback that quits: event_loop returns 0 after one pass, counter 0, idle rescheduled |
| Events.Event.constructor | src/event.c:95-117 | loop 0, fdmax -1, no fd, no timeout, wait Never; consistent |
| Events.Event.LoopQuit | src/event.c:279-283 | the counter becomes Quit's |
| Events.Event.RegisterIoRead | src/event.c:298-317 | the state becomes Watched's for reading |
| Events.Event.RegisterIoWrite | src/event.c:321-340 | the state becomes Watched's for writing |
| Events.Event.RegisterTimeout | src/event.c:344-379 | a clock failure gives -errno and changes nothing; otherwise the state becomes TimedOut's |
| Events.Event.RegisterIdle | src/event.c:287-294 | a (0, 0) timeout |
| Events.Event.UnregisterIoRead | src/event.c:385-391 | the state becomes Unwatched's for reading |
| Events.Event.UnregisterIoWrite | src/event.c:395-401 | the state becomes Unwatched's for writing |
| Events.Event.UnregisterTimeout | src/event.c:427-473 | the timeouts of fn removed, then the wait recomputed as written or -errno on a clock failure |
| Events.Event.LoopTimeout | src/event.c:183-248 | a clock failure gives -errno; otherwise the wait reset and the pass of TimeoutPassAsWritten |
| Events.Event.LoopIo | src/event.c:250-275 | the state becomes IoPass's |
| Events.Event.Run | src/event.c:154-181 | the result and state become Loop's, with the pass as written |
| Events.Event.Wakes | src/event.c:168-176 | _loop_timeout as written, then the two I/O passes |
| Events.UnregisterIo | src/event.c:403-423 | the loop gives Kept, its MaxFd and whether something was removed |
| Events.KeptStep | src/event.c:403-423 | one more kept entry |
| Events.KeptDrop | src/event.c:403-423 | a removed entry |
| Events.UnregisterFn | src/event.c:433-443 | the removal loop gives Unfn |
| Events.UnfnStep | src/event.c:433-443 | one more kept timeout |
| Events.UnfnDrop | src/event.c:433-443 | a removed timeout |
| Events.RewaitAll | src/event.c:447-471 | the second loop gives Rewait's, as written |

## Left out

- Allocation failure: allocations always succeed, so the paths that return -1 or 1 because `malloc`, `realloc`, `strdup` or `string_new` failed are not modelled. The one exception is `token_set_string`, whose failure is a parameter.
- Messages written to the standard error, and the text `error_set_code` keeps: only the codes returned are modelled.
- Callbacks, filters and foreach functions are pure functions of their arguments. A callback cannot change the parser, the table or the Event it was called from. The one exception is `event_loop_quit`, which an event callback's outcome can request.
- `select()` and `gettimeofday()`: the ready descriptors and the clock's time or failure are inputs. select's writes into the timeout it is passed are not modelled.
- `time_t`, `suseconds_t`, `int` and `size_t` overflow in the event loop and the tools. Wrap-around is modelled where the C code relies on it or goes wrong by it: the parser's line and column counters, `buffer_set_data`'s overflow test and the removal count of the parser's lists.
- The file-backed scanner (`parser_new`, `_parser_scanner_file`), FILE I/O and `getenv`: a file is its text, or the errno of a failed open.
- `parser_delete`, `token_delete`, `variable_delete`, `event_delete`, `config_delete` and the other destructors, and pointer ownership: keys and values are held by value.
- Native byte order: integers are serialised least significant byte first.
- `VT_BUFFER` has no case in the C code and none here.
- `token_new`'s arity follows src/token.c:44, not its caller at src/parser.c:285.
- The getopt tokenising of the tools is left out: each tool receives the sequence of options getopt returns.
- TimeoutPassMeaning: states the timeout pass as evidently intended (TimeoutPass). The pass as written (TimeoutPassAsWritten, which the Event's methods run) treats the entries and the loop counter the same way (PassAsWrittenEntries) and leaves a wait no later than the starting one. Only when no pending entry needs a borrow is its wait that of TimeoutPassMeaning (PassAsWrittenAgrees); otherwise it can be a wrong borrow (PassBorrowWrong) or later than a candidate (PassKeepsLaterWait).
- PendingMeans: the pending step with the exact remaining time and an exact comparison. The pending step as written is PendingAsWritten, which compares the field-by-field difference and stores RemainingAsWritten.
- Parsers.Parser.RemoveCallback and Parsers.Parser.RemoveFilter: on an empty list the C count wraps to SIZE_MAX (RemovedAsWritten states that), and later calls would read past the array. The model's list stays empty.
- Events.Event.UnregisterTimeout, Events.Rewait, Events.RewaitAll, Events.RewaitChoice: the C code compares each absolute expiry with the relative wait computed so far (src/event.c:452-455). The model keeps that comparison and the borrow as written, and states no intended wait for it: none is evident from the code.
- Parsers.Parser.ScanString, Parsers.Parser.ScanPlain, Parsers.Parser.ScanFilter, Parsers.Parser.GetToken, Parsers.Filtered, Parsers.Got: after the scan that gives EOF at the end of the string, the next scan reads outside the C buffer (src/parser.c:164-168), with no defined result. These members require that their scan stays inside the string; Parsers.ScanPastEnd and Parsers.TokenPastEnd show how a caller reaches that read.
- `_send_string` and `_send_buffer` are called only from `appinterface_call`: the model states their contracts for the positions that call gives them.
- `appinterface_new` leaks its table when building fails; memory is not modelled.
- The `Array` fields of an Event are modelled as sequences rather than as `Arrays.Array` objects.
- Arrays.Array.Append and Arrays.Array.Set: the elements are stored at their exact positions. The 32-bit products of size and position in `array_set` (`curpos`, src/array.c:122) and `array_append` (src/array.c:137) can wrap and overwrite an earlier element; only Arrays.AppendOffsetAsWritten and Arrays.AppendOffsetWraps show that wrap.
- Strings.Replace: requires a non-empty `what`, because with an empty one string_replace does not terminate.
- Strings: a `char` stands for one byte. Unicode code points above 255 are outside the model of `hash_func_string`, `string_compare` and the serialiser.
- string_new, string_new_format, string_new_replace, string_get and string_delete: simple wrappers that are not part of this model.

## Findings

| source | as written | input that shows it | evidently intended | confidence | as-written member | corrected member |
|---|---|---|---|---|---|---|
| src/string.c:380-401 | `ret` starts NULL and only `string_append` can make it non-NULL, so if everything appended before the tail is empty the string is left unchanged | replace "a" by "" in "aab" leaves "aab" | every occurrence replaced: "b" | high (not executed) | Strings.ReplaceAsWrittenKeepsString | Strings.ReplaceAllIsJoin |
| src/parser.c:164-168 | `string_pos++` runs even at the end, so the call after the first EOF reads `string[string_cnt + 1]`, outside the string | two scans at the end of any string | EOF on every later call | high (not executed) | Parsers.ScanPastEnd | Parsers.Scan |
| src/parser.c:359-371 | the test `i != callbacks_cnt` is inverted: a registered callback gives 1 and stays, an absent one drops the last entry | removing a registered filter leaves it | remove the registered entry and return 0; return 1 when absent | high (not executed) | Parsers.RemoveInverted | Parsers.RemovedMeaning |
| src/variable.c:117 | `&variable->u` points to the union, so a VT_STRING copy reads the pointer's bytes as the string | "abc" at address 0x4010 copies as the characters 0x10 0x40 | the same type and value | high (not executed) | Variables.CopyLosesString | Variables.NewCopy |
| src/variable.c:148-153 | variable_new_deserialize_type is not implemented and returns NULL, so nothing serialised can be read back | an int8 of -1 serialised as [1, 255] reads back as NULL | the variable serialised | high (not executed) | Variables.SerializedNotRead | Variables.DeserializeSerialized |
| src/appinterface.c:114 | `_new_append` returns 0 only when the call's index equals its argument count, so "Session" cannot be built | appinterface_new("Session") gives NULL | 0 for every call appended | high (not executed) | AppInterfaces.SessionFailsAsWritten | AppInterfaces.Appended |
| tools/configctl.c:216 | `_configctl_list(filename) ? 0 : 2` exits with 2 when listing succeeds | configctl -f empty-file -a exits with 2 | 0 on success, 2 on failure | high (not executed) | ConfigCtl.ListExitInverted | ConfigCtl.ListExit |
| src/array.c:137 | `array->size * array->count` is computed in 32 bits before widening, so it can wrap | 65536 elements of 65536 bytes give the offset 0 | the 64-bit product | medium (not executed) | Arrays.AppendOffsetWraps | Arrays.AppendOffset |
| src/event.c:220-222 | the pending entry's difference is compared field by field, with a microsecond part that can be negative, so an earlier expiry can lose to the wait | a rescheduled 3.9 s wait beside a timeout 3.8 s away, (4, -200000) as written | the exact comparison: 3.8 s | high (not executed) | Events.PassKeepsLaterWait | Events.TimeoutPassMeaning |
| src/event.c:231-236, 464-469 | on a borrow the microseconds become `now.usec - t.usec` instead of one million minus that | from 5.9 s to 10.1 s the wait is 4.8 s, not 4.2 s | the exact difference | high (not executed) | Events.RemainingBorrowWrong | Events.Remaining |
