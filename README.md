# ilude.Properties in Dafny

`ilude.Properties` is a small C# store for configuration files. It keeps a dictionary of
*namespaces*. Each namespace is an insertion-ordered table of string keys and values, the
shape a .NET `ListDictionary` has. The object has a cursor on one namespace, and every
dictionary operation without a namespace argument acts on that one. The
`Properties(filename)` constructor reads a file line by line:

- a line whose trimmed text starts with `#` is a comment;
- otherwise anything from an inline `#` onwards is cut off;
- a `[...]` line opens a fresh namespace and moves the cursor to it;
- a `key = value` line writes the pair into the cursor's table;
- anything else is ignored.

The model has these modules:

- `Wrappers` (wrappers.dfy): `Option`, `Result` and `Outcome`. An operation that throws an
  exception returns `Failure`/`Fail`, and the indexer's `null` is `None`.
- `Text` (text.dfy): the .NET string operations the parser calls (`Trim`, `StartsWith`,
  `EndsWith`, `IndexOf`, `Split`) and their properties.
- `Assoc` (assoc.dfy): `ListDictionary` semantics on sequences of pairs.
  - The indexer's set overwrites the value in place, or appends the pair.
  - `Add` is refused on a key that is already present.
  - `Remove` of an absent key does nothing.
  - A get of an absent key gives `None`.
- `Stores` (store.dfy): the whole object state as a `Store` value, with every operation
  as a function and lemmas about each one. The store has:
  - the namespace list;
  - `currentKey`, which is `current_key`;
  - `cursorTable`, the name under which the table `current_namespace` refers to is stored.
- `Parsing` (parsing.dfy): the classification of one line (`Classify`), the step it makes
  on the store (`Step`), the store a whole file yields (`Parse`), and the invariants of
  parsing.
- `ParsingExamples` (parsing_examples.dfy): single lines and a four-line file worked
  through the parser.
- `Ilude` (properties.dfy): the class `Properties`.
  - Its fields `namespaces`, `currentKey` and `currentNamespace` are updated by methods
    that mirror the C# members.
  - Each method is proved to leave `View()` equal to the `Stores` function for that
    operation.
  - The constructor's `while` loop is proved to build `Parse(lines)`. The loop body is the
    method `ReadLine`, proved against `Step`; a comment line returns early where the C#
    loop says `continue`.

Error cases are modelled, not excluded:

- an unknown namespace gives `NoSuchNamespace`, the `"No such namespace"` exception;
- `Add` of a present key gives `DuplicateKey`;
- a failed `Namespace` set is modelled the way the C# code does it. `current_key` is
  assigned before `getNamespace` throws, so the reported namespace and the table the
  operations act on diverge. `SelectCases` and `FailedSelectWritesOldTable` state this.

The code's actual behaviour is modelled, in places where a reader of its interface might
expect something else:

- A header keeps its closing bracket. The name is `line.Substring(1, line.Length - 1)`,
  so `[db]` opens the namespace `db]`, and `[_default_]` cannot reset the default
  namespace.
- A value ends at the second `=`, because the line is split on every `=` and only the
  second piece is kept: `x = a=b` stores `a`.
- The indexer's get returns `null` for an absent key instead of throwing.
- `Count`, `Keys`, `Values` and the indexer have no namespaced overloads. They always act
  on the cursor's table.

## Model

| member | source | states |
|---|---|---|
| Text.IsWhitespace | ilude/Properties.cs:37 | the characters Char.IsWhiteSpace accepts, which String.Trim removes; TrimEmpty and TrimAround are stated over it |
| Text.TrimStart | ilude/Properties.cs:37 | String.TrimStart; TrimStartShape and TrimStartDrops fix it as the removal of exactly the leading whitespace |
| Text.TrimEnd | ilude/Properties.cs:37 | String.TrimEnd; TrimEndShape and TrimEndDrops fix it as the removal of exactly the trailing whitespace |
| Text.Trim | ilude/Properties.cs:37 | the trimmed line is no longer than the input, and has no whitespace at either end |
| Text.TrimStartShape | ilude/Properties.cs:37 | trimming the front removes exactly a run of leading whitespace |
| Text.TrimEndShape | ilude/Properties.cs:37 | trimming the end removes exactly a run of trailing whitespace |
| Text.TrimSubset | ilude/Properties.cs:37 | trimming adds no character: a character absent before is absent after |
| Text.TrimEmpty | ilude/Properties.cs:37 | a line trims to empty exactly when it is all whitespace |
| Text.TrimKeepsFirst | ilude/Properties.cs:37 | a non-whitespace first character survives the trim in first position |
| Text.TrimStartDrops | ilude/Properties.cs:37 | leading whitespace before a non-whitespace character is dropped, and nothing more |
| Text.TrimEndDrops | ilude/Properties.cs:37 | trailing whitespace after a non-whitespace character is dropped, and nothing more |
| Text.TrimAround | ilude/Properties.cs:37 | whitespace padding around a text with non-whitespace ends trims back to that text |
| Text.TrimFixed | ilude/Properties.cs:37 | a text that already has non-whitespace ends is its own trim |
| Text.TrimIdempotent | ilude/Properties.cs:45 | trimming twice, as the inline-comment branch does, is trimming once |
| Text.StartsWith | ilude/Properties.cs:39-48 | the line begins with the given text; UncommentedShape and ClassifyHeader use it for the '#' and '[' tests |
| Text.EndsWith | ilude/Properties.cs:48 | the line ends with the given text; ClassifyHeader and HeaderName use it for the ']' test |
| Text.IndexOf | ilude/Properties.cs:43 | the result is -1 exactly when the character is absent, and otherwise is its first position |
| Text.IndexOfAfter | ilude/Properties.cs:54 | the first separator of a + [c] + b is the one after a, when a holds none |
| Text.Split | ilude/Properties.cs:56 | a split has at least one piece, exactly one when there is no separator, and no piece holds the separator |
| Text.JoinSplit | ilude/Properties.cs:56 | joining the pieces of a split with the separator gives the line back |
| Text.SplitJoin | ilude/Properties.cs:56 | splitting pieces without the separator, once joined by it, gives them back |
| Text.SplitCons | ilude/Properties.cs:56 | a line made of a piece without '=', an '=' and a rest splits into that piece and the rest's pieces |
| Text.SplitFirstTwo | ilude/Properties.cs:56-57 | values[0] is the text before the first '=' and values[1] the text between the first and the second '=' (or the end) |
| Assoc.Find | ilude/Properties.cs:129 | the position is -1 exactly when the key is absent, and otherwise is the first entry with the key |
| Assoc.FindFirst | ilude/Properties.cs:129 | the first entry with the key is the position found |
| Assoc.Lookup | ilude/Properties.cs:169-172 | the indexer's get, None for an absent key; LookupHasKey, LookupPut and LookupRemove characterise it |
| Assoc.LookupHasKey | ilude/Properties.cs:169-172 | a get yields a value exactly when the key is present, and the value is stored under that key |
| Assoc.LookupEntry | ilude/Properties.cs:169-172 | in a table without duplicate keys, each stored pair is what a get of its key returns |
| Assoc.Put | ilude/Properties.cs:173-176 | a set introduces no pair other than the one written |
| Assoc.LookupPut | ilude/Properties.cs:173-176 | after a set the key maps to the new value, and every other key keeps its value |
| Assoc.KeysOfPut | ilude/Properties.cs:173-176 | a set keeps the key order, and appends the key when it was new |
| Assoc.PutDistinct | ilude/Properties.cs:173-176 | a set never creates a duplicate key |
| Assoc.PutPut | ilude/Properties.cs:173-176 | a second set of the same key supersedes the first |
| Assoc.PutSame | ilude/Properties.cs:173-176 | writing back the stored value changes nothing |
| Assoc.Remove | ilude/Properties.cs:117-120 | a remove introduces no pair; RemoveAbsent, RemoveMiddle and LookupRemove fix its result |
| Assoc.LookupRemove | ilude/Properties.cs:117-120 | after a remove the key is absent, and every other key keeps its value |
| Assoc.RemoveDistinct | ilude/Properties.cs:117-120 | a remove creates no duplicate, and shrinks the table by one exactly when the key was present |
| Assoc.RemoveAbsent | ilude/Properties.cs:117-120 | removing an absent key leaves the table equal to what it was |
| Assoc.RemoveMiddle | ilude/Properties.cs:117-120 | removing a key unlinks its entry and keeps every other pair in its order |
| Assoc.RemoveThenAbsent | ilude/Properties.cs:117-130 | Contains after Remove of the same key is false |
| Assoc.RemoveAppended | ilude/Properties.cs:117-155 | removing a key just appended gives the table back |
| Assoc.KeysOf | ilude/Properties.cs:187-193 | the keys, one for each pair, in table order |
| Assoc.ValuesOf | ilude/Properties.cs:179-185 | the values, one for each pair, in table order |
| Stores.Initial | ilude/Properties.cs:84-91 | the initial store is well formed |
| Stores.CursorTable | ilude/Properties.cs:20 | the cursor's table is the table stored under the cursor's name |
| Stores.WithTableWellFormed | ilude/Properties.cs:52 | replacing or adding a table without duplicates keeps the store well formed |
| Stores.TableNamed | ilude/Properties.cs:93-103 | getNamespace succeeds exactly when the name is stored, with the table stored under it, and otherwise fails with "No such namespace" |
| Stores.WithTable | ilude/Properties.cs:52 | namespaces[name] = table, with the cursor fields untouched; TableNamedWith and WithTableWellFormed characterise it |
| Stores.TableNamedWith | ilude/Properties.cs:52 | writing a table under a name changes what getNamespace returns for that name alone |
| Stores.TableNamedCursor | ilude/Properties.cs:93-103 | getNamespace on the cursor's name returns the cursor's table, so the cursor and namespaced overloads agree |
| Stores.Select | ilude/Properties.cs:77-81 | the Namespace setter keeps the store well formed, so the cursor's table stays stored |
| Stores.SelectOutcome | ilude/Properties.cs:77-81 | whether the setter throws "No such namespace"; SelectCases shows it is Pass exactly when getNamespace succeeds |
| Stores.SelectCases | ilude/Properties.cs:77-81 | the setter always sets current_key; it succeeds exactly when the namespace exists and then moves the cursor there; on failure the cursor's table is unchanged and no longer matches current_key |
| Stores.SelectTwice | ilude/Properties.cs:77-81 | setting the same namespace twice is setting it once, with the same outcome |
| Stores.Open | ilude/Properties.cs:48-53 | a header keeps the store well formed |
| Stores.Assign | ilude/Properties.cs:173-176 | the indexer's set keeps the store well formed |
| Stores.AssignCases | ilude/Properties.cs:173-176 | the key then maps to the value, other keys keep theirs, the table grows by one exactly when the key was new, and the cursor and other namespaces are unchanged |
| Stores.AssignTwice | ilude/Properties.cs:173-176 | a second indexer set of the same key supersedes the first |
| Stores.AddKey | ilude/Properties.cs:147-155 | a successful Add leaves the store well formed |
| Stores.AddKeyCases | ilude/Properties.cs:147-155 | Add fails with "No such namespace" on an unknown namespace and with a duplicate-key error on a present key; otherwise it appends the pair to that table alone |
| Stores.AddIsAssign | ilude/Properties.cs:147-150 | on a new key Add is the indexer's set; on a present key Add fails where the indexer overwrites |
| Stores.RemoveKey | ilude/Properties.cs:117-125 | a successful Remove leaves the store well formed |
| Stores.RemoveKeyCases | ilude/Properties.cs:117-125 | Remove fails only on an unknown namespace; otherwise the key is gone, other keys keep their values, the size drops by one exactly when the key was there, the table is unchanged when the key was absent and otherwise loses just that entry with the other pairs in their order, and nothing else changes |
| Stores.AddThenRemove | ilude/Properties.cs:117-155 | Remove right after a successful Add of the same key restores the store |
| Stores.ClearNamespace | ilude/Properties.cs:137-145 | a successful Clear leaves the store well formed |
| Stores.ClearCases | ilude/Properties.cs:137-145 | Clear fails only on an unknown namespace; otherwise the namespace stays stored with an empty table, and nothing else changes |
| Stores.ClearTwice | ilude/Properties.cs:137-145 | clearing twice is clearing once |
| Stores.FailedSelectWritesOldTable | ilude/Properties.cs:77-81 | after a failed set, Namespace reports a name getNamespace rejects, while the indexer still writes into the previously selected table |
| Parsing.Uncommented | ilude/Properties.cs:37-46 | the comment handling: None for a comment line, else the trimmed line cut at an inline '#'; UncommentedShape and UncommentedClean characterise it |
| Parsing.Classify | ilude/Properties.cs:37-62 | the kind of one line: comment, header, pair or ignored; ClassifyHeader, ClassifyPair, ClassifyBlank and UncommentedShape fix each case, and ClassifyClean bounds what it yields |
| Parsing.UncommentedShape | ilude/Properties.cs:37-46 | a line is a comment exactly when its trimmed text starts with '#'; any other line reaches the tests trimmed and without '#' |
| Parsing.UncommentedClean | ilude/Properties.cs:37-46 | a trimmed line without '#' reaches the tests as it is |
| Parsing.HeaderName | ilude/Properties.cs:48-50 | the name of a header is non-empty, ends with ']', and holds no '#' |
| Parsing.ClassifyHeader | ilude/Properties.cs:48-50 | a cleaned line "[...]" is a header named by the line minus its first character |
| Parsing.HeaderLine | ilude/Properties.cs:48-50 | every line "[inner]" without '#' opens the namespace inner + "]" |
| Parsing.PairClean | ilude/Properties.cs:54-57 | a pair has a non-empty key, and neither key nor value holds '=' or '#' |
| Parsing.ClassifyPairValues | ilude/Properties.cs:54-57 | a pair line takes its key and value from the first two pieces of its split |
| Parsing.ClassifyPair | ilude/Properties.cs:54-57 | the key is the trimmed text before the first '='; the value is the trimmed text between the first and the second '=' |
| Parsing.ClassifyClean | ilude/Properties.cs:37-58 | every header name ends with ']' and holds no '#'; every pair is clean |
| Parsing.PairSplit | ilude/Properties.cs:54-57 | for a line "a=rest" that the comment handling passes unchanged (one that is already trimmed and holds no '#'), and whose a is non-empty, holds no '=' and does not start with '[', the line is the pair of trimmed a and the trimmed text of rest before any further '=' |
| Parsing.PairValue | ilude/Properties.cs:56-57 | the value part of a pair line reads as the value, whatever follows a second '=' |
| Parsing.KeyPart | ilude/Properties.cs:57 | the key part of a pair line trims to the key |
| Parsing.PairLineClean | ilude/Properties.cs:37-46 | a pair line without '#' and with non-whitespace ends passes the comment handling unchanged |
| Parsing.PairLine | ilude/Properties.cs:54-57 | a line "key = value" with optional blanks around the '=' and an optional tail that starts with a second '=', holds no '#' and does not end in whitespace, is the pair (key, value), for a key that does not start with '[' and a non-empty value, both without whitespace at their ends, '=' or '#' |
| Parsing.InlineComment | ilude/Properties.cs:43-46 | an already-trimmed line with an inline '#' past its first character is classified as the trimmed text before the '#' |
| Parsing.ClassifyBlank | ilude/Properties.cs:59-62 | a blank or all-whitespace line is ignored |
| Parsing.StepOfHeader | ilude/Properties.cs:48-53 | a line whose cleaned text is "[...]" opens the namespace named by that text minus its first character |
| Parsing.StepOfPair | ilude/Properties.cs:54-58 | a line whose cleaned text is not a header and has its first '=' past position 0 sets the trimmed first two pieces of its split in the cursor's table |
| Parsing.StepOfOther | ilude/Properties.cs:39-42 | a comment line, or a line that is neither header nor pair, leaves the store unchanged |
| Parsing.Step | ilude/Properties.cs:37-62 | one line keeps the store well formed: the cursor's table stays stored |
| Parsing.ParseFrom | ilude/Properties.cs:35-63 | reading lines keeps the store well formed |
| Parsing.Parse | ilude/Properties.cs:28-66 | the store read from a file is well formed |
| Parsing.ParseSnoc | ilude/Properties.cs:35-63 | reading one more line is one more step |
| Parsing.StepHeader | ilude/Properties.cs:48-53 | a header replaces or creates its namespace with an empty table and moves both cursor fields to it; no other namespace changes, and the name is never "_default_" |
| Parsing.StepPair | ilude/Properties.cs:54-58 | a pair line writes the pair into the cursor's table and overwrites the key; the other keys, the cursor and every other namespace are unchanged |
| Parsing.StepUnchanged | ilude/Properties.cs:39-42 | a comment line or a blank line leaves the store unchanged |
| Parsing.StepClean | ilude/Properties.cs:37-58 | one line keeps every name free of '#' and every pair clean |
| Parsing.ParseFromClean | ilude/Properties.cs:35-63 | reading any lines keeps every name free of '#' and every pair clean |
| Parsing.ParseFromKeepsNamespaces | ilude/Properties.cs:48-53 | parsing only adds namespaces, and keeps their order |
| Parsing.StepKeepsDefaultKeys | ilude/Properties.cs:48-58 | no line drops or reorders a key of "_default_" |
| Parsing.ParseFromKeepsDefaultKeys | ilude/Properties.cs:35-63 | no file drops or reorders a key of "_default_" |
| Parsing.StepCursorAgree | ilude/Properties.cs:50-57 | parsing keeps current_key and current_namespace on the same name |
| Parsing.ParseShape | ilude/Properties.cs:28-66 | after parsing, "_default_" is the first namespace, both cursor fields name the same stored table, and the store is clean |
| ParsingExamples.HeaderKeepsBracket | ilude/Properties.cs:50 | "[db]" opens the namespace "db]" |
| ParsingExamples.ValueStopsAtSecondEquals | ilude/Properties.cs:56-57 | "x = a=b" stores "a" under "x" |
| ParsingExamples.SimplePair | ilude/Properties.cs:54-57 | "a=1" stores "1" under "a" |
| ParsingExamples.SpacedPair | ilude/Properties.cs:54-57 | "host = localhost" stores "localhost" under "host" |
| ParsingExamples.InlineCommentCut | ilude/Properties.cs:43-57 | "port=5432 # default port" stores "5432" under "port" |
| ParsingExamples.PortBeforeComment | ilude/Properties.cs:45 | the text before the '#' trims to "port=5432" |
| ParsingExamples.PortPair | ilude/Properties.cs:54-57 | "port=5432" stores "5432" under "port" |
| ParsingExamples.SampleFile | ilude/Properties.cs:28-66 | the four-line sample file gives exactly "_default_" with a=1 and "db]" with host and port in file order, with the cursor on "db]" |
| ParsingExamples.SampleA | ilude/Properties.cs:54-57 | the first sample line writes into the empty "_default_" table |
| ParsingExamples.SampleDb | ilude/Properties.cs:48-53 | the sample header appends the empty namespace "db]" and moves the cursor to it |
| ParsingExamples.SampleHost | ilude/Properties.cs:54-57 | the third sample line writes host into "db]" |
| ParsingExamples.SamplePort | ilude/Properties.cs:43-57 | the fourth sample line appends port to "db]" after host |
| ParsingExamples.PairStep | ilude/Properties.cs:57 | a pair step rewrites only the cursor's entry of the namespace list |
| ParsingExamples.AppendStep | ilude/Properties.cs:57 | a pair with a key new to the cursor's table is appended to that table alone |
| Ilude.Properties.CurrentTable | ilude/Properties.cs:20 | current_namespace is the table stored under the cursor's name, and what getNamespace returns for it |
| Ilude.Properties.Init | ilude/Properties.cs:84-91 | afterwards the store holds only "_default_", empty, with both cursor fields on it |
| Ilude.Properties.constructor | ilude/Properties.cs:23-26 | a new object is the initial store |
| Ilude.Properties.FromLines | ilude/Properties.cs:28-66 | the loop over the file's lines leaves exactly the store Parse gives for them |
| Ilude.Properties.ReadLine | ilude/Properties.cs:37-62 | one pass of the loop body leaves exactly the store Step gives for the line |
| Ilude.Properties.Namespace | ilude/Properties.cs:73-76 | the getter reports current_key |
| Ilude.Properties.SetNamespace | ilude/Properties.cs:77-81 | the new state is Select and the exception is SelectOutcome, which SelectCases characterises |
| Ilude.Properties.GetNamespace | ilude/Properties.cs:93-103 | the lookup succeeds exactly when the name is stored, with its table, and otherwise reports "No such namespace" |
| Ilude.Properties.Get | ilude/Properties.cs:169-172 | a value comes back exactly when the key is in the cursor's table, and it is the value stored there |
| Ilude.Properties.Set | ilude/Properties.cs:173-176 | the new state is Assign, which AssignCases characterises |
| Ilude.Properties.Add | ilude/Properties.cs:147-150 | on the cursor's table the new state or the error is AddKey's, unchanged on error |
| Ilude.Properties.AddIn | ilude/Properties.cs:152-155 | the new state or the error is AddKey's for that namespace, unchanged on error |
| Ilude.Properties.Remove | ilude/Properties.cs:117-120 | the new state is RemoveKey on the cursor's table |
| Ilude.Properties.RemoveIn | ilude/Properties.cs:122-125 | the new state or the error is RemoveKey's for that namespace, unchanged on error |
| Ilude.Properties.Clear | ilude/Properties.cs:137-140 | the new state is ClearNamespace on the cursor's table |
| Ilude.Properties.ClearIn | ilude/Properties.cs:142-145 | the new state or the error is ClearNamespace's for that namespace, unchanged on error |
| Ilude.Properties.Contains | ilude/Properties.cs:127-130 | true exactly when the key is in the cursor's table |
| Ilude.Properties.ContainsIn | ilude/Properties.cs:132-135 | "No such namespace" exactly when the namespace is absent; otherwise true exactly when the key is in that table |
| Ilude.Properties.Count | ilude/Properties.cs:217-223 | the number of pairs in the cursor's table |
| Ilude.Properties.Keys | ilude/Properties.cs:187-193 | the cursor table's keys, in insertion order |
| Ilude.Properties.Values | ilude/Properties.cs:179-185 | the cursor table's values, in the order of the keys |
| Ilude.Properties.GetEnumerator | ilude/Properties.cs:107-110 | the cursor table's pairs, in insertion order |
| Ilude.Properties.GetEnumeratorIn | ilude/Properties.cs:112-115 | the pairs of the named table, or "No such namespace" |

## Left out

- File input (ilude/Properties.cs:33-35, 65). Opening, reading and closing the `StreamReader` is I/O, so `FromLines` takes the file's lines as a sequence of strings. A file that cannot be opened is not modelled.
- `IsReadOnly`, `IsFixedSize`, `IsSynchronized`, `SyncRoot` and `CopyTo` (ilude/Properties.cs:159-165, 195-201, 209-236). They pass straight through to .NET collection plumbing and have no logic of their own.
- Enumerator objects (ilude/Properties.cs:107-115, 242-245). `GetEnumerator` returns the ordered pairs instead of `IDictionaryEnumerator` state. The explicit `IEnumerable.GetEnumerator` is the same as `GetEnumerator`, so it has no member of its own.
- Ilude.Properties.Keys: returns a snapshot of the keys, not the live `ICollection` view `ListDictionary` hands out. The same goes for Ilude.Properties.Values.
- Keys and values are strings. The `object`-typed keys and values of the `IDictionary` members are not modelled, and neither are `null` keys and the exception they raise.
- `StartsWith`, `EndsWith` and `IndexOf` on strings compare character by character. Culture-sensitive comparison is not modelled.
- `Trim` removes the `Char.IsWhiteSpace` characters, as in current .NET. The shorter list used by older .NET Framework versions is not modelled.
- Object identity of the tables. A table is a value, and `current_namespace` is the name its table is stored under. This is equivalent for every reachable state, because a table is only ever replaced together with a move of the cursor to it (ilude/Properties.cs:50-52). Aliasing between `current_namespace` and the stored entry is therefore not shown as such.
- Exceptions are values. The "No such namespace" exception is `NoSuchNamespace`, and `ListDictionary.Add`'s exception on a present key is `DuplicateKey`. Nothing is unwound.
