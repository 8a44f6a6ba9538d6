# Rucio utilities and pyright tooling, modelled in Dafny

This project models the general-purpose helpers of Rucio, the scientific
data-management system. Most of them are in `rucio.common.utils`:

- the heap-backed `PriorityQueue`, a class whose methods update its `heap` list and `container` dictionary in place;
- the `Availability` bit translator;
- `chunks` and `dict_chunks`;
- the storage-size parser `get_bytes_value_from_string`;
- the DID filter parser `parse_did_filter_from_string`;
- the relative SURL conventions `construct_surl_DQ2`, `construct_surl_T0` and `construct_surl_BelleII`, their dispatcher `construct_surl`, and `__strip_dsn` and `__strip_tag`;
- `clean_surls`;
- the scope extractors for ATLAS and DIRAC;
- `invert_dict` and `make_valid_did`;
- the dogpile key generator `my_key_generator`;
- the `retry` wrapper.

The project also models:

- the cache-key generator of `rucio.common.cache`;
- the pyright report tooling under `tools/run_pyright`: comparing two reports, the exit codes of `compare` and `generate`, `_strip_dict`, `_indent`, the printed candidate lines, and `group_by`.

Python dictionaries whose insertion order is visible are modelled as lists
of items (module `Dicts`):

- `Lookup` is `d.get(k)`;
- `Assign` is `d[k] = v`, where an existing key keeps its place and a new key goes last;
- `Remove` is `del d[k]`.

Their properties are the lemmas `Dicts.LookupNone`, `Dicts.AssignLookup`,
`Dicts.AssignKeys`, `Dicts.AssignShape` and `Dicts.RemoveLookup`.

Python values reaching the key generators are `PyValues.PyValue`. It has `str()` as
`Str` and truthiness as `Truthy`. Strings are `seq<char>`. Exceptions are
modelled as error values (`Result`/`Option`):

- `None` stands for `KeyError` or `IndexError` in the priority queue;
- `None` stands for `False` in `get_bytes_value_from_string`.

Modules and files:

| module | file | models |
|---|---|---|
| `PriorityQueues` | priority_queue.dfy | `PriorityQueue` as a class with `seq`/`map` fields |
| `Availabilities` | availability.dfy | `Availability` |
| `Chunking` | chunking.dfy | `chunks`, `dict_chunks` |
| `ByteUnits` | byte_units.dfy | `get_bytes_value_from_string` |
| `DidFilters` | did_filter.dfy | `parse_did_filter_from_string` |
| `Surls` | surl.dfy | the SURL conventions and `clean_surls` |
| `Scopes` | scope.dfy | `extract_scope_atlas`, `extract_scope_dirac` |
| `Dicts` | dicts.dfy | dictionaries, `invert_dict`, `make_valid_did` |
| `KeyGenerators` | key_generator.dfy | `my_key_generator` |
| `CacheKeys` | cache_keys.dfy | `ignore_arguments_key_generator` |
| `Retries` | retry.dfy | `retry` |
| `PyrightCompare` | pyright_compare.dfy | `compare.py` |
| `PyrightGenerate` | pyright_generate.dfy | `generate.py` |
| `PyrightUtils` | pyright_utils.dfy | `group_by` |
| `PyValues`, `Text`, `StringOrder`, `Sequences`, `Wrappers` | pyvalues.dfy, text.dfy, string_order.dfy, sequences.dfy, wrappers.dfy | Python values, `str` operations (`split`, `join`, `find`, `lower`, `upper`, `str(int)`), Python's string order and `list.sort`, sequence identities, `Option`/`Result` |

## Model

| member | source | states |
|---|---|---|
| PriorityQueues.PriorityQueue.constructor | lib/rucio/common/utils.py:1668-1671 | a new queue is a valid, empty heap |
| PriorityQueues.PriorityQueue.Len | lib/rucio/common/utils.py:1673-1674 | the length is the number of stored keys |
| PriorityQueues.PriorityQueue.Get | lib/rucio/common/utils.py:1676-1677 | a stored key yields its priority; a missing key is the KeyError case |
| PriorityQueues.PriorityQueue.Contains | lib/rucio/common/utils.py:1692-1693 | membership is membership of the abstract contents |
| PriorityQueues.PriorityQueue.Top | lib/rucio/common/utils.py:1695-1696 | an empty queue is the IndexError case; otherwise a stored key whose priority is no greater than any other's |
| PriorityQueues.PriorityQueue.Set | lib/rucio/common/utils.py:1679-1690 | the contents become old contents with key mapped to value, the heap stays valid, and the heap grows by one exactly when the key is new |
| PriorityQueues.PriorityQueue.Pop | lib/rucio/common/utils.py:1698-1707 | an empty queue is left unchanged (IndexError); otherwise it returns a key of least priority, removes exactly that key and keeps the heap valid |
| PriorityQueues.PriorityQueue.SiftUp | lib/rucio/common/utils.py:1709-1722 | from a heap out of order only above the item, it restores heap order and the slot indexing without changing priorities; it reports a change exactly when the item moved up |
| PriorityQueues.PriorityQueue.SiftDown | lib/rucio/common/utils.py:1724-1754 | from a heap out of order only below the item, it restores heap order and indexing without changing priorities; it reports a change exactly when the item moved down |
| PriorityQueues.RootIsMin | lib/rucio/common/utils.py:1695-1699 | in heap order the root has the least priority, which is what `top` and `pop` rely on |
| PriorityQueues.SiftUpStep | lib/rucio/common/utils.py:1714-1719 | one swap with a greater parent keeps the "ordered except at pos" invariant at the parent |
| PriorityQueues.SiftDownStep | lib/rucio/common/utils.py:1734-1747 | one swap with the smaller child keeps the "ordered below pos" invariant at the child |
| PriorityQueues.DecreasedKey | lib/rucio/common/utils.py:1682-1684 | lowering a priority leaves the heap out of order only above that key |
| PriorityQueues.IncreasedKey | lib/rucio/common/utils.py:1682-1686 | raising a priority leaves the heap out of order only below that key |
| PriorityQueues.AppendedKey | lib/rucio/common/utils.py:1688-1690 | appending a new key at the end leaves the heap out of order only above it |
| PriorityQueues.LastToRoot | lib/rucio/common/utils.py:1700-1706 | moving the last key to the root after removing the minimum leaves the rest indexed and out of order only below the root |
| PriorityQueues.SmallestOfFamily | lib/rucio/common/utils.py:1734-1740 | the chosen position is pos or one of its children, and it holds the least priority among them |
| Availabilities.FromInteger | lib/rucio/common/utils.py:1887-1903 | `None` gives three unset fields; an integer sets all three |
| Availabilities.Integer | lib/rucio/common/utils.py:1905-1918 | the integer is below 8 |
| Availabilities.IntegerOfFromInteger | lib/rucio/common/utils.py:1887-1918 | `from_integer` then `integer` keeps the three low bits (n % 8, with Python's floor semantics for negative n) |
| Availabilities.IntegerOfFromIntegerSmall | lib/rucio/common/utils.py:1887-1918 | every integer in [0, 8) survives the round trip |
| Availabilities.FromIntegerOfInteger | lib/rucio/common/utils.py:1887-1918 | a fully set availability survives `integer` then `from_integer` |
| Availabilities.NoneMeansAvailable | lib/rucio/common/utils.py:1896-1897 | unset fields count as available: the integer of `Availability()` is 7 |
| Availabilities.IntegerIgnoresUnset | lib/rucio/common/utils.py:1881-1885 | the hash (the integer) treats an unset field as `True` |
| Chunking.Chunks | lib/rucio/common/utils.py:477-483 | for a list: step 0 raises, a negative step yields nothing, a positive step yields `ChunksOf(xs, n)` |
| Chunking.ChunksIterable | lib/rucio/common/utils.py:484-490 | for any other iterable: a negative size raises, 0 yields nothing, a positive size yields the same chunks as a list |
| Chunking.DictChunks | lib/rucio/common/utils.py:493-499 | step 0 raises, a negative step yields nothing, otherwise chunk k is the dictionary of items k*n to (k+1)*n in the iteration order of `d`, with distinct keys |
| Chunking.ChunksFlatten | lib/rucio/common/utils.py:477-483 | the chunks concatenated give back the list |
| Chunking.ChunkCount | lib/rucio/common/utils.py:477-483 | there are ceil(len / n) chunks |
| Chunking.ChunkSizes | lib/rucio/common/utils.py:477-483 | every chunk but the last has n elements, the last between 1 and n |
| Chunking.ChunkIsSlice | lib/rucio/common/utils.py:482-483 | chunk k is the slice `xs[k*n:(k+1)*n]` |
| Chunking.DictChunksCover | lib/rucio/common/utils.py:493-499 | the chunk dictionaries together are the dictionary |
| Chunking.DictChunkSizes | lib/rucio/common/utils.py:493-499 | every chunk dictionary but the last has exactly n keys |
| ByteUnits.Multiplier | lib/rucio/common/utils.py:1058-1071 | a known unit has a positive size |
| ByteUnits.GetBytesValue | lib/rucio/common/utils.py:1047-1074 | a result comes only from digits followed by a known unit, and is the number times the unit's size |
| ByteUnits.ValueOfWellFormed | lib/rucio/common/utils.py:1054-1072 | every number followed by a known unit, in any case, with an optional final newline, gives number × size |
| ByteUnits.NoneOtherwise | lib/rucio/common/utils.py:1070-1074 | anything else gives `False` |
| ByteUnits.UnitCaseInsensitive | lib/rucio/common/utils.py:1057 | `GB` and `gb` give the same value |
| ByteUnits.BareNumberRejected | lib/rucio/common/utils.py:1054 | a number without a unit is rejected |
| DidFilters.OperatorOf | lib/rucio/common/utils.py:1092-1108 | the operator chosen is the first, in the order `>=`, `>`, `<=`, `<`, `=`, that occurs in the option |
| DidFilters.KeyValue | lib/rucio/common/utils.py:1089-1111 | an option without an operator gives key and value `None`; otherwise `Unpack` exactly when `option.split(op)` does not give two pieces, `BadDate` exactly when a `created_after`/`created_before` value under `=` does not parse, and else the key is the first piece (`length` renamed after the operator) and the value the second piece, as a date for the date keys under `=` and as a string otherwise |
| DidFilters.NormalizeBool | lib/rucio/common/utils.py:1126-1129 | `true` in any case becomes `1`, `false` in any case becomes `0`, other strings are unchanged, so no stored string is a boolean word |
| DidFilters.Interpret | lib/rucio/common/utils.py:1113-1132 | `type` sets the lower-cased value when it is a valid type; a length key stores `Int(int(value))`; any other key stores its value, a string after the `true`/`false` mapping; the error cases are exactly an invalid type and a non-integer length |
| DidFilters.ParseIntOfString | lib/rucio/common/utils.py:1120 | `int(str(n)) == n` |
| DidFilters.ParseDidFilter | lib/rucio/common/utils.py:1077-1134 | the loop over the options computes `Parse`: options applied left to right, the first error raised |
| DidFilters.FoldWellFormed | lib/rucio/common/utils.py:1088-1132 | applying the options (`Fold`) keeps the result well formed: a valid type, no `type` filter, integer length filters, no boolean words |
| DidFilters.FoldKeepsType | lib/rucio/common/utils.py:1088-1117 | applying options none of whose keys is `type` (`Fold`) leaves the type as it was |
| DidFilters.Parse | lib/rucio/common/utils.py:1077-1134 | every successful parse is well formed, and its type is `collection` unless some option has the key `type` |
| DidFilters.BlankInputStoresNone | lib/rucio/common/utils.py:1086-1090 | a non-empty all-space input stores `None` under the key `None` |
| DidFilters.LengthBound | lib/rucio/common/utils.py:1092-1107 | `length<op>n` stores the integer n under `length.gte`, `length.gt`, `length.lte` or `length.lt` |
| DidFilters.OnlyOption | lib/rucio/common/utils.py:1086-1134 | a one-option input does what that option does |
| DidFilters.TypeOption | lib/rucio/common/utils.py:1113-1117 | `type=v` selects `v` in lower case when its upper case is a valid type, and raises `InvalidType` otherwise |
| DidFilters.FoldAppend | lib/rucio/common/utils.py:1088 | parsing a list continues from the result of its first part |
| DidFilters.SplitAtOperator | lib/rucio/common/utils.py:1093 | `key<op>value` splits at the operator into exactly `[key, value]` when neither holds operator characters |
| DidFilters.OptionParts | lib/rucio/common/utils.py:1092-1109 | such an option selects its own operator and splits into key and value |
| Surls.SubToEnd | lib/rucio/common/utils.py:636 | `re.sub(lit + '.*$', '', s)` leaves a string without `lit` unchanged and never makes a string longer |
| Surls.SubToEndTruncates | lib/rucio/common/utils.py:636-637 | `re.sub(lit + '.*$', '', s)` on one line truncates at the first occurrence and leaves no occurrence |
| Surls.SubAllPrefix | lib/rucio/common/utils.py:634-637 | the suffix loop gives a prefix holding none of the suffixes |
| Surls.StripTag | lib/rucio/common/utils.py:645-658 | `__strip_tag` keeps a tag holding none of `_dis`, `_sub`, `_tid`, and never makes a tag longer |
| Surls.StripDsnKeepsPlain | lib/rucio/common/utils.py:625-642 | `__strip_dsn` keeps a name whose last field holds none of `_dis`, `_sub`, `_frag` |
| Surls.StripTagIdempotent | lib/rucio/common/utils.py:645-658 | `__strip_tag` gives a prefix without `_dis`, `_sub`, `_tid`, and is idempotent |
| Surls.StripDsnIdempotent | lib/rucio/common/utils.py:625-642 | `__strip_dsn` gives a prefix of the name and is idempotent |
| Surls.ConstructSurlDq2AsWritten | lib/rucio/common/utils.py:514-550 | as written, the file name is the last path component |
| Surls.ConstructSurlDq2AsWrittenLayout | lib/rucio/common/utils.py:524-550 | as written, the path read back is: one field gives `other`, the stripped name and the file; two fields give the project, the stripped name and the file; three or four fields, or a project matching `user*\|group*`, give the project, the second and third fields, the stripped name and the file; otherwise the project, the fifth field (dataset type), `other` for five fields or the stripped tag of the last field, the stripped name and the file |
| Surls.ConstructSurlDq2 | lib/rucio/common/utils.py:514-550 | with the intended user test, the file name is the last path component |
| Surls.ConstructSurlDq2Layout | lib/rucio/common/utils.py:524-550 | with the intended user test (a project starting with `user` or `group`), the path read back has the same per-branch layout as above |
| Surls.UsePrefixTakenForUser | lib/rucio/common/utils.py:535-546 | a six-field name whose project starts with `use` but not `user` is laid out as a user dataset as written and by dataset type as intended |
| Surls.UsedIsNotUser | lib/rucio/common/utils.py:535 | `used` matches the pattern but is not `user` |
| Surls.ConstructSurlT0AsWritten | lib/rucio/common/utils.py:553-570 | as written, the call raises exactly for a two-field name, and otherwise agrees with the corrected function |
| Surls.T0TwoFieldsRaises | lib/rucio/common/utils.py:567-568 | `project.stream` raises `IndexError` |
| Surls.ConstructSurlT0 | lib/rucio/common/utils.py:553-570 | with the two-field case corrected, every name gets a path and the file name is its last component |
| Surls.T0Layout | lib/rucio/common/utils.py:553-570 | the corrected T0 path read back is the project, then the third and second fields (for two fields the second field and `other`, for one field `other` twice), then the whole name and the file name |
| Surls.ConstructSurlBelleII | lib/rucio/common/utils.py:573-587 | the path starts with the name and ends with `/filename` |
| Surls.ConstructSurlAsWritten | lib/rucio/common/utils.py:590-622 | as written: it raises exactly for a two-field name under `T0`; otherwise the file name is the last path component, and the path equals the corrected one under `T0` and `BelleII`, and under DQ2 (the fallback) whenever both user tests agree on the project |
| Surls.ConstructSurlDispatch | lib/rucio/common/utils.py:606-622 | `T0` and `BelleII` select their own convention; a missing or any other convention name falls back to DQ2, both as written and corrected |
| Surls.ConstructSurl | lib/rucio/common/utils.py:606-622 | with the corrected T0 and DQ2 conventions, every convention gives a path whose last component is the file name |
| Surls.PathSplits | lib/rucio/common/utils.py:514-570 | a path splits back into its components |
| Surls.PortAt | lib/rucio/common/utils.py:665 | a match of `:[0-9]+/` is a colon, digits and a slash |
| Surls.SubPort | lib/rucio/common/utils.py:665 | `re.sub(':[0-9]+/', '/', s)` keeps a string without a colon and never makes a string longer |
| Surls.SubPortRemovesPort | lib/rucio/common/utils.py:665 | `:8443/` becomes `/` |
| Surls.SubPortKeepsColon | lib/rucio/common/utils.py:665 | the colon of `srm://` is kept |
| Surls.SrmPortRemoved | lib/rucio/common/utils.py:664-665 | an SRM URL loses its port and nothing else |
| Surls.CutAt | lib/rucio/common/utils.py:669-672 | `s.split(marker)[0]` is a prefix of s without the marker, and s itself when the marker is absent |
| Surls.CleanSurl | lib/rucio/common/utils.py:663-672 | a cleaned SURL holds neither signature marker |
| Surls.PlainSurlKept | lib/rucio/common/utils.py:663-673 | a non-SRM URL without signature parameters is unchanged |
| Surls.SignedSurlCut | lib/rucio/common/utils.py:671-672 | a signed URL loses its query from `?X-Amz` on |
| Surls.CleanSurls | lib/rucio/common/utils.py:661-675 | the result is sorted and a permutation of the cleaned SURLs |
| Surls.CleanSurlsDetermined | lib/rucio/common/utils.py:674 | the sorted result is unique |
| StringOrder.Sort | lib/rucio/common/utils.py:674 | `list.sort` on strings: sorted and a permutation |
| StringOrder.SortedUnique | lib/rucio/common/utils.py:674 | two sorted permutations of each other are equal |
| Scopes.DropTrailingSlash | lib/rucio/common/utils.py:689-690 | at most one trailing slash is removed |
| Scopes.ExtractScopeAtlas | lib/rucio/common/utils.py:683-698 | it raises exactly for more than one colon; with one colon the result is the part before it and the part after it without a trailing slash; without a colon the scope is the first dot field, or the first two for `user`/`group` names, and the name is the identifier without a trailing slash |
| Scopes.AtlasScopeOfQualifiedName | lib/rucio/common/utils.py:685-691 | `scope:name` gives back scope and name |
| Scopes.AtlasRejectsTwoColons | lib/rucio/common/utils.py:686-687 | two colons raise |
| Scopes.AtlasUserScope | lib/rucio/common/utils.py:693-695 | a `user.`/`group.` name has its first two fields as the scope |
| Scopes.ExtractScopeDirac | lib/rucio/common/utils.py:701-709 | the name is returned unchanged with a slash-free scope; it fails (IndexError) exactly for fewer than two elements |
| Scopes.DiracScopeOfPath | lib/rucio/common/utils.py:702-706 | `/vo/scope...` has the scope `scope`, whatever slashes trail it |
| Scopes.DiracScopeOfVo | lib/rucio/common/utils.py:702-708 | `/vo` alone, whatever slashes trail it, has the VO name as its scope |
| Dicts.LookupNone | lib/rucio/common/utils.py:1001 | a key is missing exactly when no item has it |
| Dicts.AssignLookup | lib/rucio/common/utils.py:1004-1007 | after `d[k] = v`, `d[k]` is v and other keys are unchanged |
| Dicts.RemoveLookup | lib/rucio/common/utils.py:1004-1007 | after `del d[k]`, k is missing and other keys are unchanged |
| Dicts.FromPairs | lib/rucio/common/utils.py:110 | a dict comprehension has distinct keys |
| Dicts.FromPairsLastWins | lib/rucio/common/utils.py:110 | a repeated key gets the value of its last pair |
| Dicts.InvertDict | lib/rucio/common/utils.py:102-110 | the inverse has distinct keys |
| Dicts.InvertKeys | lib/rucio/common/utils.py:102-110 | the keys of the inverse are exactly the values |
| Dicts.InvertLastWins | lib/rucio/common/utils.py:105-110 | a repeated value maps to the key of its last occurrence |
| Dicts.InvertInvolution | lib/rucio/common/utils.py:105-110 | inverting a one-to-one dictionary twice gives it back |
| Dicts.MakeValidDid | lib/rucio/common/utils.py:1001-1002 | without `filename` the dictionary is returned as is |
| Dicts.MakeValidDidLookup | lib/rucio/common/utils.py:1004-1007 | the result has no `filename`, its `name` is the old name or the file name, and other keys are kept |
| Dicts.MakeValidDidIdempotent | lib/rucio/common/utils.py:990-1007 | applying it twice changes nothing more |
| KeyGenerators.MyKey | lib/rucio/common/utils.py:502-511 | a key exists exactly when there is a namespace, and it starts with `namespace_fname` |
| KeyGenerators.FalsyArgumentIgnored | lib/rucio/common/utils.py:509 | a falsy positional argument never affects the key |
| KeyGenerators.KeySplitsIntoArguments | lib/rucio/common/utils.py:509 | with `_`-free parts, splitting the key at `_` recovers the namespace, the name glued to the first argument, and the rest |
| KeyGenerators.NameRunsIntoArguments | lib/rucio/common/utils.py:509 | no separator after the name: `f` with `1` collides with `f1` without arguments |
| CacheKeys.KeptValues | lib/rucio/common/cache.py:97 | every keyword value not ignored is kept |
| CacheKeys.GenerateKeyAsWritten | lib/rucio/common/cache.py:99-101 | as written, a truthy namespace yields `namespace_` alone; otherwise the intended key |
| CacheKeys.AsWrittenIgnoresCall | lib/rucio/common/cache.py:99-101 | as written, every call of every function cached with the same namespace shares one key |
| CacheKeys.NamespaceSwallowsKey | lib/rucio/common/cache.py:99-101 | as written, the namespace makes the function name and arguments disappear from the key |
| CacheKeys.GenerateKey | lib/rucio/common/cache.py:88-101 | the intended key starts with the namespace prefix and the function name |
| CacheKeys.IgnoredKwargIrrelevant | lib/rucio/common/cache.py:97 | an ignored keyword argument never affects the key |
| CacheKeys.OnlyKeptValuesMatter | lib/rucio/common/cache.py:97-101 | calls with the same positional arguments and kept keyword values get the same key |
| CacheKeys.KeySplitsIntoArguments | lib/rucio/common/cache.py:99-101 | without a namespace and with `_`-free parts, the key splits at `_` into the function name and the `str` of each positional and kept keyword value, in order |
| CacheKeys.KeyWithoutNamespace | lib/rucio/common/cache.py:99-101 | without a namespace the key is the function name, `_` and the joined argument strings |
| Retries.Call | lib/rucio/common/utils.py:1564-1580 | the function runs until the first attempt that returns, at most `max(mtries, 1)` times; the result is that attempt's outcome; the logged attempt numbers are 1, 2, … |
| Retries.Attempts | lib/rucio/common/utils.py:1569-1580 | at least one attempt, and exactly `mtries` when positive |
| Retries.FirstReturn | lib/rucio/common/utils.py:1570-1580 | the first returning attempt, with all earlier ones raising |
| Retries.ReturnsIfAnyAttemptReturns | lib/rucio/common/utils.py:1574 | if some allowed attempt returns, the call returns, no later than that attempt |
| Retries.RaisesWhenAllAttemptsRaise | lib/rucio/common/utils.py:1580 | if all attempts raise, all of them run and the last exception propagates |
| PyrightCompare.CountAll | tools/run_pyright/compare.py:55-56 | the loop builds `Counter(xs)` |
| PyrightCompare.CountedLookup | tools/run_pyright/compare.py:55-56 | a counter holds each element once with its number of occurrences |
| PyrightCompare.Subtract | tools/run_pyright/compare.py:59 | the loop computes `counter.subtract(other)` |
| PyrightCompare.SubtractedLookup | tools/run_pyright/compare.py:58-59 | each count becomes the difference, and the keys are those of either counter |
| PyrightCompare.MostCommon | tools/run_pyright/compare.py:61 | `most_common()`: non-increasing counts, a permutation, items of equal count in counter order |
| PyrightCompare.Positive | tools/run_pyright/compare.py:61 | the filter keeps exactly the items with a positive count |
| PyrightCompare.CompareReports | tools/run_pyright/compare.py:53-62 | distinct diagnostics, counts non-increasing and positive, each the growth of that diagnostic, and a diagnostic present exactly when it grew |
| PyrightCompare.CompareExitCode | tools/run_pyright/compare.py:40-50 | the exit code is 0 or 2, and 0 without `--Werror` when no errors were added |
| PyrightCompare.CompareExitCodeIff | tools/run_pyright/compare.py:40-50 | on `_compare_reports` output, 2 exactly when a new error (or with `--Werror` a new warning) exists |
| PyrightCompare.Indent | tools/run_pyright/compare.py:65-75 | the loop joins the first line and the later lines with the prefix |
| PyrightCompare.ConcatSplitLines | tools/run_pyright/compare.py:69 | the lines of `splitlines(keepends=True)` join back to the text |
| PyrightCompare.IndentEmptyPrefix | tools/run_pyright/compare.py:65-75 | an empty prefix gives the text back |
| PyrightCompare.IndentLines | tools/run_pyright/compare.py:65-75 | with a prefix free of line breaks, the output has the same lines, every one but the first prefixed |
| PyrightCompare.CandidateRoundTrip | tools/run_pyright/compare.py:89-92 | a printed candidate reads back as its zero-based start and end lines |
| PyrightCompare.CandidateLines | tools/run_pyright/compare.py:87-92 | one printed candidate per occurrence, in order: `start+1` for a one-line range and `start+1-end+1` otherwise, each reading back to its range |
| PyrightGenerate.Field | tools/run_pyright/generate.py:69-77 | `d[key]` succeeds exactly on a dictionary holding the key, and a dictionary without it raises `KeyError` |
| PyrightGenerate.Pop | tools/run_pyright/generate.py:71-77 | `d.pop(key)` succeeds exactly on a dictionary holding the key and removes it |
| PyrightGenerate.StripDict | tools/run_pyright/generate.py:64-79 | the loop computes `Stripped`: the first failing diagnostic raises, otherwise the stripped diagnostics replace the old ones |
| PyrightGenerate.StripAllEach | tools/run_pyright/generate.py:69-77 | the loop succeeds exactly when every diagnostic can be stripped, and then yields each stripped diagnostic in order |
| PyrightGenerate.FailureStays | tools/run_pyright/generate.py:69-77 | once a diagnostic fails, the result is that failure |
| PyrightGenerate.UnknownModeCopies | tools/run_pyright/generate.py:69-79 | an unknown mode returns an equal copy |
| PyrightGenerate.NotIterable | tools/run_pyright/generate.py:69 | diagnostics that are not a list, a dictionary or a string fail to iterate |
| PyrightGenerate.StrippedReport | tools/run_pyright/generate.py:66-79 | every other top-level field is kept, and the diagnostics are stripped one for one |
| PyrightGenerate.RangeMode | tools/run_pyright/generate.py:70-71 | mode `range` removes exactly the `range` key and fails exactly when it is missing |
| PyrightGenerate.RangeFieldMode | tools/run_pyright/generate.py:72-77 | modes `line` and `character` remove the field from start and end and keep everything else |
| PyrightGenerate.RangeFieldMissing | tools/run_pyright/generate.py:72-77 | a missing range or field raises `KeyError` |
| PyrightGenerate.GenerateExitCode | tools/run_pyright/generate.py:50-54 | 0 or 1, and with non-negative counts 1 exactly when there are errors (or with `--Werror` warnings) |
| PyrightUtils.GroupBy | tools/run_pyright/utils.py:27-32 | the loop builds `Grouped` |
| PyrightUtils.GroupedLookup | tools/run_pyright/utils.py:27-32 | each key's list is exactly the elements with that key in input order, and other keys are absent |
| PyrightUtils.GroupedKeys | tools/run_pyright/utils.py:27-32 | the keys are the distinct element keys in order of first appearance |
| PyrightUtils.GroupsCoverInput | tools/run_pyright/utils.py:27-32 | no group is empty, and every element is in the group of its key |
| PyrightUtils.GroupNonEmpty | tools/run_pyright/utils.py:31 | no group is empty |
| PyrightUtils.GroupedSize | tools/run_pyright/utils.py:27-32 | the group sizes add up to the input length |
| PyrightUtils.SelectAppend | tools/run_pyright/utils.py:31 | appending keeps the input order within each group |

## Left out

- `parse_did_filter_from_string_fe` (utils.py:1137): only the simpler parser is modelled.
- DidFilters.ParseInt: accepts an optional sign and ASCII digits only. Python's `int()` also accepts surrounding tabs or newlines, `_` separators and non-ASCII digits.
- `Text.Lower`/`Text.Upper`: map ASCII letters only. Python's `lower`/`upper` also map non-ASCII letters.
- `datetime.strptime` for the date filters is the predicate parameter `dateOk`. No date is parsed.
- DidFilters.ParseDidFilter: a `None` input is modelled as the empty string. Both are falsy and give the same result.
- `filters` is a `map`. Its insertion order is not observable in the result's contents and is not modelled.
- I/O is not modelled: logging in `retry`, `print` in `compare`, running pyright, `load_json` and `save_json`.
- The `Report` classes (`tools/run_pyright/models.py`) are not part of this model. Diagnostics are an abstract type `D` with a severity function, and the summary counts are parameters.
- PyrightGenerate.StripError: `TypeError` and `AttributeError` are merged into `WrongShape`.
- PyrightCompare.CandidateText: line numbers are `nat`. A negative line from a malformed report is not modelled.
- PyrightCompare.CandidateLines: the `', '.join` of the candidates is not round-tripped as a whole, only each candidate.
- The `if args.strip` guard of `generate` is not modelled. It only chooses whether `_strip_dict` runs.
- PyrightGenerate.Json: duplicate keys in a JSON object are not modelled. Objects are lists of fields, and the lemmas require distinct keys where they need them.
- PyrightGenerate.StripDict: `copy.deepcopy` and aliasing are not modelled. Values are immutable, so the input is never changed.
- The thread, daemon and policy-package parts of `utils.py` are not modelled. `register_policy_package_algorithms` is one of them, so `construct_surl` knows only the three built-in conventions.
- `Availability.__iter__` and `__repr__` are not modelled (unpacking and printing).
- PriorityQueues.PriorityQueue: `empty_slots` is never read by the queue and is left out.
- PriorityQueues.PriorityQueue: a `ContainerSlot` object becomes the value `Slot`, because no slot is shared outside the queue.
- PriorityQueues.PriorityQueue.SiftDown: the loop works on local copies of `heap` and `container` and writes them back once. The same holds for SiftUp. Nothing can observe the fields in between.
- PriorityQueues.PriorityQueue.SiftUp: callable only in the states `__setitem__` reaches (the heap out of order only above the item), and likewise SiftDown (only below). They are private helpers of the class.
- PriorityQueues: priorities are integers. Python allows any ordered values.
- `extract_scope_belleii` (utils.py:712) is not modelled: it is not one of the generic algorithms modelled here.
- Scopes: the `scopes` argument of the extractors is unused by them and left out.
- Retries.Call: the wrapped function is the parameter `outcome` (what its i-th call does). Its arguments are not modelled.
- Retries.Outcome: `Raised` stands for an exception derived from `Exception`, the only kind `retry` catches (utils.py:1575). A `BaseException` such as `KeyboardInterrupt` escapes at once without a retry and is not modelled.
- Surls.SubToEndTruncates: it and the lemmas built on it (`StripTagIdempotent`, `StripDsnIdempotent`) require a single-line string. The multi-line behaviour of `.*$` is in the function `SubToEnd` but not stated in these lemmas.
- Surls.ConstructSurlDq2Layout: it, Surls.ConstructSurlDq2AsWrittenLayout and Surls.T0Layout are stated for names and file names without a slash. With a slash inside a component the path cannot be read back component by component, though the functions still build it.
- Surls.CleanSurl: the removal of the SRM endpoint strings is modelled by `Text.RemoveAll` (non-overlapping, left to right, as `re.sub` on a literal). Only the absence of the signature markers is stated.

## Findings

| source | as written | input that shows it | evidently intended | confidence | as-written member | corrected member |
|---|---|---|---|---|---|---|
| lib/rucio/common/cache.py:99 | `(namespace + "_") if namespace else "" + fname + ...`: the conditional binds looser than `+`, so a truthy namespace yields `namespace_` alone | any call of a function cached with namespace `"rucio"`, e.g. `f(1)` and `g(2)` both give `rucio_` | `(namespace + "_" if namespace else "") + fname + "_" + args` | high; not executed | CacheKeys.GenerateKeyAsWritten (with CacheKeys.AsWrittenIgnoresCall) | CacheKeys.GenerateKey (with CacheKeys.OnlyKeptValuesMatter, CacheKeys.KeySplitsIntoArguments) |
| lib/rucio/common/utils.py:567-568 | `construct_surl_T0` reads `fields[2]` when there are exactly two fields | `"data18.physics"` raises `IndexError` | the second field, `fields[1]` | high; not executed | Surls.ConstructSurlT0AsWritten (with Surls.T0TwoFieldsRaises, Surls.ConstructSurlAsWritten) | Surls.ConstructSurlT0 (with Surls.T0Layout, Surls.ConstructSurl) |
| lib/rucio/common/utils.py:535 | `re.match('user*\|group*', ...)`: `r*` and `p*` allow zero repetitions, so any project starting with `use` or `grou` matches | `"used.a.b.c.d.e"` is laid out as a user dataset | a project starting with `user` or `group` | medium; not executed | Surls.ConstructSurlDq2AsWritten (with Surls.ConstructSurlDq2AsWrittenLayout, Surls.UsePrefixTakenForUser, Surls.UsedIsNotUser, Surls.ConstructSurlAsWritten) | Surls.ConstructSurlDq2 (with Surls.ConstructSurlDq2Layout, Surls.ConstructSurl) |
