# Verified model of the Table Driven Interface core

This project models the parts of the Table Driven Interface repository that hold real
algorithms, and proves what they promise. One Dafny module stands for each component.

| file | what it models |
|---|---|
| `ThreadPool.dfy` | the worker thread pool: task queue, workers, `submitTask`, destructor, as a protocol of atomic steps and as the object whose fields the steps change |
| `TdiObjects.dfy` | the objects created for what the parser found, by name and by id |
| `NameIndex.dfy` | splitting a table's full name, generating its partial names, the index from partial names to tables, lookup by name |
| `ParamNames.dfy` | shortening of dotted field names to parameter names, for keys and data together |
| `ByteCodec.dfy` | big-endian codec and bounds check in C++, the Python codec and `_parse_int` |
| `StrArray.dfy` | size, printer and parser of string arrays over a C buffer |
| `PagedDump.dfy` | the paged table dump and the ownership of its key and data handles |
| `DepTester.dfy` | the dependency-ordered test of all tables and its cleanup |
| `TableData.dfy` | which fields of a data object are active |
| `Schema.dfy` | parsing data fields with their oneof siblings, name maps, field lookups, picking one member of a oneof |
| `Strings.dfy` | splitting at a character and joining, shared by the others |

Conventions. Object identity is dropped: a task is a number, a table is any value, a handle is a
number that is never handed out twice. Unsigned widths are written out where they matter (`Uint64`,
`Uint32`, the modulus in the size function). Python's `>>` and `&` on unbounded integers are
division and remainder by a power of two. `std::map` loops whose order does not matter pick any
element; the one whose order matters (name maps) picks the least key.

Each loop or updating method of the source is a method proved against a specification function
or an independent statement; what the source promises is then proved about that specification.

## Findings

Some things one would expect are not so in the code as written. For each there is a theorem that
says exactly when the code does meet the expectation, an input for which it does not, or both; where
the condition is not exact, "Left out" says so.

- `submitTask` enqueues and notifies without the pool mutex. So the guarantee that at least
  min(queue length, workers) workers are awake fails in pools of every positive size, and a task can
  be left behind with *all* workers blocked exactly in pools of fewer than two workers. What does
  hold is the guarantee with one worker fewer; so in pools of two workers or more, and only there,
  the workers can always empty the queue by themselves. Were both done under the mutex, the full guarantee
  would hold in every pool.
- The destructor sets and announces `shutdown_` without the mutex. A worker that has read the flag
  but not yet blocked can block after `notify_all` and hold up the join. Whether it can is decided by
  the workers on their way to the queue and by the queue's length: the exact condition is `MayBlock`.
  If it does not hold at `notify_all`, the destructor finishes; if it does, some run leaves it stuck.
- Parameter names of keys are distinct for all data fields exactly if no key, as a whole, is what is
  left of an earlier key at some depth from 20 on. For keys of at most 20 components that means:
  exactly if they stay distinct after dots are turned into underscores; being distinct before that
  (`a_b` and `a.b`) is not enough. The names of data fields of at most 51 components are distinct for
  all keys exactly under the latter condition. A key and a data field never get the same name.
- At the depth limit the order of the fields decides: a name listed after a longer name that ends
  in it is told apart exactly when it has fewer than 20 components, though the comment in the code
  means to continue in that case.
- A negative number passes the size check of `_parse_int`. Its buffer may then be refused by the
  C++ bounds check (-1 in three bits) or be accepted and arrive as another number (-1000 in eight bits
  arrives as 24). A parsed number arrives as itself exactly if it is not negative.
- A full table name with a trailing dot is never found, because it does not generate itself.
- `fieldTypeCompatibilityCheck` admits a scalar for a field of exactly 64 bits, although its comment
  says less than 64; the model follows the code.
- A dump leaves handles allocated; unless the driver fails, their number is given exactly, also for an
  empty table and when the handler raises. For a table without
  get-next-N the dump hands out the first entry only and returns 0 all the same.
- The size function counts in 32 bits, so its result suffices exactly below 2^32 bytes. For an empty
  vector it is 0, and the printer then writes nothing, not even a NUL.
- A oneof inside a singleton is not counted by `parseTable`: members are lost, while those that are
  stored keep the lost ones as siblings. The stored relation is right exactly when the oneof that is
  counted reaches every id of the one that is read; where no singleton stands beside a oneof, exactly
  when no singleton holds a oneof with two different ids.
- The id found for a common field name leads to another field exactly if an action uses that id and
  has no field of that name.
- In the dependency test a table whose own test failed counts as tested, so that a table tested from a
  later leaf may be tested over a failed dependency. Whatever fails, that cannot happen exactly if no
  leaf reaches a table that depends on one an earlier leaf reaches; if one does, and all dependencies
  are known, it happens when the test of that dependency alone fails.

## Model

| member | source | states |
|---|---|---|
| ThreadPool.ThreadSafeQueue.Enqueue | include/tdi/common/tdi_utils.hpp:73-76 | the task goes to the end of the queue |
| ThreadPool.ThreadSafeQueue.Dequeue | include/tdi/common/tdi_utils.hpp:78-86 | fails exactly on an empty queue; otherwise takes the first task off |
| ThreadPool.TdiThreadPool.Perform | include/tdi/common/tdi_utils.hpp:110-196 | whatever step a worker, producer or the destructor takes: tasks are started in the order of submission, none is lost or run twice, the mutex stays exclusive; the histories of the object grow by what the step submits, starts and finishes |
| ThreadPool.TdiThreadPool.Run | include/tdi/common/tdi_utils.hpp:65-196 | the same for any schedule; moreover after shutdown no more tasks start than there are workers past the loop test, and once all threads are joined everything started is finished |
| ThreadPool.TdiThreadPool.GetQueueSize | include/tdi/common/tdi_utils.hpp:168 | how many submitted tasks were not started |
| ThreadPool.QueueIsFifo | include/tdi/common/tdi_utils.hpp:113-128 | in every run, started tasks followed by the queue are the old queue followed by the submissions |
| ThreadPool.StartedTasksAreConserved | include/tdi/common/tdi_utils.hpp:124-128 | in every run, each task is finished or held by a worker as often as it was started |
| ThreadPool.NothingLostOrRepeated | include/tdi/common/tdi_utils.hpp:188-189 | from a new pool, the started tasks are the oldest submissions in order, and every submission is queued, running or finished |
| ThreadPool.RunKeepsMutexInv | include/tdi/common/tdi_utils.hpp:116-122 | in every run at most one worker is in the locked block, and joined threads have exited |
| ThreadPool.WorkerStartsAtMostOneMore | include/tdi/common/tdi_utils.hpp:113-129 | after shutdown a worker starts at most one more task, none if it is at the loop test, running or gone |
| ThreadPool.BoundedWorkAfterShutdown | include/tdi/common/tdi_utils.hpp:154-156 | after shutdown no more tasks start than there are workers past the loop test |
| ThreadPool.ShutdownBoundIsSharp | include/tdi/common/tdi_utils.hpp:113-128 | for every pool size a run exists in which each worker starts a task after shutdown |
| ThreadPool.ExitedForGood | include/tdi/common/tdi_utils.hpp:113-130 | an exited worker never starts a task again |
| ThreadPool.DestructorReturnsOnlyWhenIdle | include/tdi/common/tdi_utils.hpp:160-165 | once all threads are joined all workers have exited and no continuation starts a task |
| ThreadPool.NoStrandedWorkUnderMutex | include/tdi/common/tdi_utils.hpp:117-121 | if enqueue and notify were one step under the mutex, at least min(queue, n) workers would be awake in every state before shutdown |
| ThreadPool.EnoughAwakeFailsAsWritten | include/tdi/common/tdi_utils.hpp:188-192 | as written, a settled state that breaks that guarantee is reachable if and only if the pool has a worker |
| ThreadPool.StrandedIffFewerThanTwoWorkers | include/tdi/common/tdi_utils.hpp:148-192 | as written, a settled state with a queued task and all workers blocked is reachable if and only if there are fewer than two workers |
| ThreadPool.AllButOneBusyAsWritten | include/tdi/common/tdi_utils.hpp:110-192 | as written, in every reachable state before shutdown at least min(q, n - 1) of n workers are neither blocked nor committed to block, q being the queue length less the notifications still under way |
| ThreadPool.WokenTakesTask | include/tdi/common/tdi_utils.hpp:116-128 | a woken worker takes the oldest task, if there is one, without testing the queue again |
| ThreadPool.AnyBlockedWorkerCanWake | include/tdi/common/tdi_utils.hpp:188-192 | in every state a task can be submitted, and the notification, or a spurious wakeup, can reach any blocked worker |
| ThreadPool.DrainsIff | include/tdi/common/tdi_utils.hpp:110-130 | before shutdown the workers by themselves can start all queued tasks if and only if there are none or some worker is neither blocked nor committed to block nor gone |
| ThreadPool.SettledPoolDrainsIff | include/tdi/common/tdi_utils.hpp:110-192 | as written, they can from every reachable settled state if and only if the pool has two workers or more |
| ThreadPool.BlocksAfterNotifyAllIff | include/tdi/common/tdi_utils.hpp:116-159 | after notify_all some run blocks a worker if and only if one is about to wait, or is about to test a queue that the dequeuing workers can empty, or is about to lock while fewer tasks are queued than workers are past the loop test |
| ThreadPool.DestructorFinishesIff | include/tdi/common/tdi_utils.hpp:154-166 | workers and destructor can complete the join from every state after notify_all if and only if that is not so |
| ThreadPool.ShutdownIsBounded | include/tdi/common/tdi_utils.hpp:154-166 | while joining and unless a worker can block, nobody blocks in any run, and workers and destructor make a bounded number of steps |
| ThreadPool.ShutdownIsNeverStuck | include/tdi/common/tdi_utils.hpp:160-165 | and until all threads are joined one such step can always be taken |
| ThreadPool.BlockedWorkerStopsJoin | include/tdi/common/tdi_utils.hpp:120-163 | a worker still blocked keeps the destructor from joining past it until some wakeup |
| ThreadPool.JoinCanFindBlockedWorker | include/tdi/common/tdi_utils.hpp:156-159 | such a state is reachable in every pool of positive size, under either discipline |
| Strings.JoinSplit | src/tdi_info.cpp:33-44 | joining the tokens of a split gives the string back |
| Strings.SplitJoin | src/tdi_info.cpp:33-44 | a separator-free token list is determined by its join |
| NameIndex.SplitString | src/tdi_info.cpp:33-44 | tokens free of the delimiter that join back to the input; for one character, the unique such list |
| NameIndex.GenerateUniqueNames | src/tdi_info.cpp:55-70 | exactly the dotted suffixes of the name without trailing dots, and the empty name if there were any |
| NameIndex.GeneratesIff | src/tdi_info.cpp:55-70 | a name is generated if and only if it stands in the full name at the front or after a dot, does not end with a dot and has only dots after it |
| NameIndex.GeneratedEndsWithoutDot | src/tdi_info.cpp:55-70 | no generated name ends with a dot |
| NameIndex.AddNames | src/tdi_info.cpp:102-108 | the inner loop enters exactly the new names and marks exactly the taken ones |
| NameIndex.PopulateFullNameMap | src/tdi_info.cpp:86-115 | a name is in the index if and only if exactly one table generates it, and maps to that table |
| NameIndex.IndexIsUnique | src/tdi_info.cpp:93-109 | the index does not depend on the order of the tables |
| NameIndex.FullNameResolves | src/tdi_info.cpp:72-85 | a full name without trailing dot resolves, to its own table, exactly when no other table generates it |
| NameIndex.TrailingDotNeverResolves | src/tdi_info.cpp:59-68 | a name with a trailing dot is never in the index |
| NameIndex.NewTableNeverRedirects | src/tdi_info.cpp:99-114 | a further table leaves an indexed name with its table or removes it, the latter exactly if it generates the name too |
| TdiObjects.CreateObjects | src/tdi_info.cpp:142-165 | the first object created for a name is stored, and an id leads to the first object stored with it; what could not be created is left out |
| TdiObjects.NamesAndIdsAgree | src/tdi_info.cpp:156-163 | where no other stored entry has the id, name and id lead to the same object |
| NameIndex.TdiInfo.constructor | src/tdi_info.cpp:133-197 | the object starts with the tables and learn objects that were created, by name and by id, and correct indexes of both |
| NameIndex.TdiInfo.TableFromNameGet | src/tdi_info.cpp:212-229 | refuses names marked invalid; otherwise succeeds exactly on names with a sole table and returns it |
| NameIndex.TdiInfo.TableFromIdGet | src/tdi_info.cpp:231-242 | succeeds exactly on ids some stored table has, with the first of them |
| NameIndex.TdiInfo.LearnFromNameGet | src/tdi_info.cpp:255-264 | succeeds exactly on names with a sole learn object and returns it |
| ParamNames.SanitiseAt | tdi_python/tdicli.py:1103 | of a name without dollar signs each `-`, `:`, `[` and `]` becomes an underscore, all else stays |
| ParamNames.DollarVanishes | tdi_python/tdicli.py:1103 | dollar signs vanish |
| ParamNames.Shorten | tdi_python/tdicli.py:1103-1109 | the name is its last `ridx` sanitised components joined by underscores; `cidx` is -1 exactly when there are no more than `ridx` |
| ParamNames.BuildNames | tdi_python/tdicli.py:1100-1117 | names every field at depth `ridx`; the result is 0 exactly if all are distinct and free, -2 exactly if a taken name has nothing left to add |
| ParamNames.GoodMeans | tdi_python/tdicli.py:1111-1116 | a pass without collision means pairwise distinct names disjoint from those taken before |
| ParamNames.MakeParamNames | tdi_python/tdicli.py:1119-1144 | ends, with names, taken set and depth of the search specification |
| ParamNames.SearchIsSound | tdi_python/tdicli.py:1128-1143 | success exactly if the names are good at the final depth; giving up only from depth 20 on with a full clash; all earlier depths bad and not breaking off |
| ParamNames.SearchSucceedsIff | tdi_python/tdicli.py:1128-1143 | success if and only if a good depth comes before any depth that breaks off the loop |
| ParamNames.FoundNamesAreDistinct | tdi_python/tdicli.py:1120-1123 | on success the names are pairwise distinct and disjoint from the taken set |
| ParamNames.NameBoth | tdi_python/tdicli.py:1151-1157 | keys are named first, then data from the depth reached, avoiding the key names |
| ParamNames.MakeCoreNames | tdi_python/tdicli.py:1151-1177 | the depth-matching loop ends with the names of its specification, suffixed after 50 tries |
| ParamNames.AllBaseNamesDistinct | tdi_python/tdicli.py:1151-1177 | if no key is swallowed by an earlier one, and data fields differ at every depth over 50 at which one of them has no further component, all base names are distinct across keys and data |
| ParamNames.ShortApartWhereStuckIff | tdi_python/tdicli.py:1151-1177 | for data fields of at most 51 components that condition means that they are distinct once flattened |
| ParamNames.KeysNeverMeetData | tdi_python/tdicli.py:1151-1177 | whatever the field names are, no key gets the base name of a data field |
| ParamNames.NoneSwallowedIff | tdi_python/tdicli.py:1111-1134 | no key is, as a whole, what is left of an earlier key at a depth from 20 on, if and only if at no such depth a pass sees a clash that the loop takes for final |
| ParamNames.ShortNoneSwallowedIff | tdi_python/tdicli.py:1131-1142 | for names of at most 20 components that means that they are distinct once flattened |
| ParamNames.KeyNamesApartIff | tdi_python/tdicli.py:1119-1177 | key names are distinct for all data fields if and only if no key is swallowed by an earlier one |
| ParamNames.ShortKeyNamesApartIff | tdi_python/tdicli.py:1119-1177 | for keys of at most 20 components: if and only if the flattened keys are distinct, even if only data fields that are themselves distinct are considered |
| ParamNames.DataNamesApartIff | tdi_python/tdicli.py:1119-1177 | for data fields of at most 51 components: their names are distinct for all keys if and only if the flattened data names are distinct |
| ParamNames.SameNameIsSuffixed | tdi_python/tdicli.py:1166-1177 | a key and a data field of the same name end after 50 tries with that name and the suffixes `_key` and `_data` |
| ParamNames.SiblingFieldsAlignIff | tdi_python/tdicli.py:1166-1177 | a key and a data field that differ in their first component only get their whole names without suffix if and only if fewer than 50 components follow |
| ParamNames.ExtensionToldApartIff | tdi_python/tdicli.py:1132-1143 | a name listed after an extension of it is told apart exactly when it has fewer than 20 components; listed before, always |
| ParamNames.FlatCollisionSlipsThrough | tdi_python/tdicli.py:1168-1170 | keys `a_b` and `a.b` with data field `b` end at equal depths with two equal key names |
| ByteCodec.DecodeEncode | tdi_python/tdiTable.py:678-693 | decoding an encoded integer gives it modulo 256^n |
| ByteCodec.EncodeDecode | include/tdi/common/tdi_utils.hpp:209-252 | encoding a decoded buffer gives the buffer back |
| ByteCodec.ByteCheckIsValueCheck | include/tdi/common/tdi_utils.hpp:327-351 | at every width the byte check accepts exactly buffers of ceil(width/8) bytes with a value below 2^width |
| ByteCodec.ScalarCheckIsValueCheck | include/tdi/common/tdi_utils.hpp:311-377 | both scalar checks together accept exactly values below 2^width for widths up to 64 |
| ByteCodec.CompatibleIff | include/tdi/common/tdi_utils.hpp:358-394 | a buffer is compatible exactly if it has as many bytes as the width needs, a scalar exactly up to 64 bits |
| ByteCodec.AcceptedFormsAreInBijection | include/tdi/common/tdi_utils.hpp:303-354 | up to 64 bits decoding and encoding are inverse bijections between accepted buffers and accepted scalars |
| ByteCodec.InRangeIsExact | include/tdi/common/tdi_utils.hpp:327-353 | a value in the field's range is encoded without loss in an accepted buffer |
| ByteCodec.ToHostOrder | include/tdi/common/tdi_utils.hpp:209-231 | the big-endian value of the buffer; over 8 bytes the output is left alone |
| ByteCodec.ToNetworkOrder | include/tdi/common/tdi_utils.hpp:233-252 | the first bytes of the buffer become the encoding, the rest stays; over 8 bytes nothing is written |
| ByteCodec.NetworkThenHost | include/tdi/common/tdi_utils.hpp:396-414 | writing an accepted scalar and reading it back is lossless, and the buffer is accepted |
| ByteCodec.FillCByteArr | tdi_python/tdiTable.py:678-685 | fills the array with the encoding |
| ByteCodec.FromCByteArr | tdi_python/tdiTable.py:687-693 | accumulates the big-endian value |
| ByteCodec.FillThenRead | tdi_python/tdiTable.py:674-693 | for every integer and width the round trip is reduction modulo 256^n |
| ByteCodec.FillThenHost | tdi_python/tdiTable.py:678-685 | what Python writes, C++ reads as the same residue |
| ByteCodec.NetworkThenPython | tdi_python/tdiTable.py:687-693 | what C++ writes for an accepted scalar, Python reads back |
| ByteCodec.OmittedIsDefault | tdi_python/tdiTable.py:253-262 | an omitted required mask is all ones, an omitted required value zero |
| ByteCodec.SkippedOrFailedIff | tdi_python/tdiTable.py:253-294 | exactly read-only fields and omitted optional or selector fields are skipped; exactly other unparsable input fails |
| ByteCodec.NumberIsParsed | tdi_python/tdiTable.py:295-301 | a number is reduced only as a negative mask and refused only if checked and too large; without the check every number is parsed |
| ByteCodec.ParsedIsInRange | tdi_python/tdiTable.py:252-301 | a parsed number is below 2^size; a mask is non-negative and reduced modulo 2^size if given negative |
| ByteCodec.ParseAcceptsIff | tdi_python/tdiTable.py:295-301 | with the size check on, a number is parsed exactly if it is below 2^size |
| ByteCodec.ParsedBufferIsAcceptedIff | tdi_python/tdiTable.py:295-301 | the buffer of a parsed number passes the C++ check exactly if its residue fits; it passes and reads back as that number exactly if the number is not negative |
| ByteCodec.NegativeIsRefusedLater | tdi_python/tdiTable.py:299-301 | -1 for a 3-bit field is parsed, and its buffer is refused |
| ByteCodec.NegativeIsTruncated | tdi_python/tdiTable.py:299-301 | -1000 for an 8-bit field is parsed, its buffer is accepted and reads back as 24 |
| StrArray.GetValueStrArraySize | src/c_frontend/tdi_table_data_c.cpp:246-256 | adds the required bytes to the given size modulo 2^32 |
| StrArray.RequiredIsPrintedLength | src/c_frontend/tdi_table_data_c.cpp:253-254 | the sum of lengths plus one is the length of the text with its NUL |
| StrArray.PrintItem | src/c_frontend/tdi_table_data_c.cpp:227-240 | one turn writes separator and string, or fails leaving a prefix because the buffer is too small |
| StrArray.GetValueStrArray | src/c_frontend/tdi_table_data_c.cpp:217-244 | never writes past `size`; succeeds exactly if `size` is at least the required bytes; then writes exactly the text and a NUL, otherwise a prefix of it |
| StrArray.Strtok | src/c_frontend/tdi_table_data_c.cpp:88-92 | takes the next space-separated word and remembers what follows |
| StrArray.SetValueStrArray | src/c_frontend/tdi_table_data_c.cpp:82-95 | the vector is the list of words of the C string |
| StrArray.RoundTripIff | src/c_frontend/tdi_table_data_c.cpp:82-244 | parsing printed text restores the vector exactly if each string is non-empty and free of spaces and NULs |
| StrArray.PrintThenParse | src/c_frontend/tdi_table_data_c.cpp:82-256 | printing into a buffer of the reported size succeeds exactly if fewer than 2^32 bytes are required; parsing it then restores a non-empty vector under the same condition; for an empty vector nothing is written |
| PagedDump.Driver.EntryGetFirst | include/tdi/common/tdi_table.hpp:292-308 | contract: fills the handles with the first entry, not found on an empty table |
| PagedDump.Driver.EntryGetNextN | include/tdi/common/tdi_table.hpp:310-334 | contract: fills the handles with the entries after the given key, n of them or all that are left |
| PagedDump.GetFirst | tdi_python/tdiTable.py:1676-1697 | live handles on the first entry, or the empty result, or an exception |
| PagedDump.GetNext | tdi_python/tdiTable.py:1699-1737 | new distinct live handles on the following entries; counts the spare handles it leaves allocated |
| PagedDump.DeallocateHdls | tdi_python/tdiTable.py:1670-1674 | frees exactly the given handles, which must be live |
| PagedDump.HandOut | tdi_python/tdiTable.py:2005-2013 | hands out the entries of a page through live handles, then frees all but the last key, unless the handler raises |
| PagedDump.NextTurn | tdi_python/tdiTable.py:1995-2019 | one turn of the loop hands out the next page, or completes the dump, or raises |
| PagedDump.Dump | tdi_python/tdiTable.py:1985-2019 | ends; pages are exactly the pages of the table, or a prefix of them if it or the handler raises; no handle is freed twice or used after being freed; unless the driver fails the handles left allocated are counted exactly, and those of the caller stay allocated in any case |
| PagedDump.LeakedIsAllocatedLessFreed | tdi_python/tdiTable.py:1995-2019 | the key handles a complete dump leaves are those of n / 20 + 1 requests less those of all entries but the last of each page that another one follows |
| PagedDump.PagesAreComplete | tdi_python/tdiTable.py:1995-2019 | those pages concatenate to the table, none is empty, all but the last have 20 entries, and there are n / 20 of them, rounded up |
| DepTester.DepTester.TestTable | tdi_python/tdicli.py:621-641 | adds only reached eligible tables, each once and after all its eligible dependencies, also when it fails; ends unless an eligible table depends on itself through eligible ones; tests no table over a dependency that failed in this call |
| DepTester.DepTester.DepTest | tdi_python/tdicli.py:650-666 | if nothing failed the tested tables are exactly those reached from a leaf through eligible tables, and all passed; only tables with keys whose type is not excluded are tested, each after its dependencies, which all have leaves; with known dependencies it fails only if a table did, with -1 if all failures are -1; it raises only on an unknown dependency; no table is tested over a failed dependency, whatever fails, if no two leaves cross, and if two do, the failure of the dependency where they cross is passed over |
| DepTester.FailedDependencyIsPassedOver | tdi_python/tdicli.py:622-641 | a table is tested over a dependency that was tested before and failed |
| DepTester.BitOrAt | tdi_python/tdicli.py:658 | the statuses of the leaves are combined bit by bit |
| DepTester.DepTester.Cleanup | tdi_python/tdicli.py:642-646 | reverses the list in place, so no table is cleared after one it depends on |
| DepTester.TestedIsClosed | tdi_python/tdicli.py:629-637 | whatever is reached from a tested table is tested |
| DepTester.PathFits | tdi_python/tdicli.py:629-637 | in an acyclic graph no chain of calls is longer than the number of tables |
| DepTester.CleanupVisitsDependentsFirst | tdi_python/tdicli.py:642-646 | the reverse of a tested list has dependents before their dependencies |
| TableData.TableData.constructor | include/tdi/common/tdi_table_data.hpp:60-72 | the object starts with the chosen fields |
| TableData.TableData.Reset | src/tdi_table_data.cpp:185-192 | sets the ids and chooses the fields anew |
| TableData.TableData.ActiveFieldsSet | src/tdi_table_data.cpp:194-206 | records the choice and keeps the object consistent with its history |
| TableData.TableData.RemoveActiveField | src/tdi_table_data.cpp:208-223 | records the removal and keeps the object consistent with its history |
| TableData.TableData.IsActive | src/tdi_table_data.cpp:225-251 | over every history, active exactly if in the last choice (all if it was empty) and not removed since |
| TableData.TableData.Perform | src/tdi_table_data.cpp:185-223 | every sequence of choices and removals keeps the object consistent with its history |
| TableData.ChosenAndNotRemoved | src/tdi_table_data.cpp:194-251 | whatever happened before, after a choice and removals exactly the chosen and not removed fields are active |
| TableData.FirstChosenAndNotRemoved | include/tdi/common/tdi_table_data.hpp:60-72 | the same after construction |
| TableData.OnlyRemovedAreInactive | src/tdi_table_data.cpp:208-251 | after a choice of all fields exactly the removed ones are inactive |
| Schema.ParseDataField | src/tdi_json_parser/tdi_info_parser.cpp:252-331 | the field has the id and name of the node, of its singleton, or of the indexed member of the oneof of either; its siblings are all other ids of that oneof |
| Schema.ParseTableData | src/tdi_json_parser/tdi_info_parser.cpp:561-586 | of all fields taken from all nodes the first one of each id is stored |
| Schema.ParseActionData | src/tdi_json_parser/tdi_info_parser.cpp:339-354 | the same for the first member of each action data node |
| Schema.StoredForTableIff | src/tdi_json_parser/tdi_info_parser.cpp:561-586 | from the JSON alone: an id is stored exactly if a node offers it, with the name that goes with it where it is offered first |
| Schema.StoredForActionIff | src/tdi_json_parser/tdi_info_parser.cpp:339-354 | for an action: exactly the first id each node offers, with the name of the first such node |
| Schema.StoredSiblings | src/tdi_json_parser/tdi_info_parser.cpp:267-277 | with disjoint groups the siblings of a stored field are the rest of the group the schema declares, whether stored or not |
| Schema.SiblingsAreGroupsIff | src/tdi_json_parser/tdi_info_parser.cpp:561-586 | with disjoint groups the stored relation is irreflexive, symmetric and complete within each declared group if and only if the members counted in each node meet every id it declares |
| Schema.SingletonsLoseMembersIff | src/tdi_json_parser/tdi_info_parser.cpp:261-277 | where no singleton stands beside a oneof, that holds if and only if no singleton holds a oneof with two different ids |
| Schema.LostMember | src/tdi_json_parser/tdi_info_parser.cpp:261-277 | a singleton with a oneof of fields 1 and 2 is stored as field 1 alone, with sibling 2 |
| Schema.PickMember | src/tdi_table_data.cpp:185-223 | resetting and removing the siblings of a field leaves exactly the siblings inactive |
| Schema.PickedIsSoleActive | src/tdi_table_data.cpp:208-251 | for any schema with disjoint groups, the field is then the only active one of its declared group, and all fields outside it stay active |
| Schema.BuildNameMap | include/tdi/common/tdi_json_parser/tdi_table_info.hpp:526-532 | each name maps to the field with the largest id that bears it |
| Schema.ParseTable | src/tdi_json_parser/tdi_info_parser.cpp:540-631 | refuses exactly repeated key, action and notification ids; otherwise the table info is consistent |
| Schema.TableInfo.DataFieldIdListGet | src/tdi_json_parser/tdi_table_info.cpp:77-99 | sorted, the action's ids and the common ids with multiplicity; contains an id exactly if it can be looked up for that action |
| Schema.TableInfo.OwnFieldsComeFirst | src/tdi_json_parser/tdi_table_info.cpp:101-162 | with action id 0 or an unknown one only common fields are found, otherwise an action's own come first |
| Schema.TableInfo.NamesLeadBackIff | src/tdi_json_parser/tdi_table_info.cpp:109-162 | for one action every name found leads back to a field of that name if and only if no common field, the one of its name with the largest id, shares its id with a field of an action that has no field of that name |
| Schema.ShadowedName | src/tdi_json_parser/tdi_table_info.cpp:109-162 | a schema in which the id found for one name leads to a field of another |
| Schema.TableInfo.DisjointIdsLeadBack | src/tdi_json_parser/tdi_table_info.cpp:109-162 | with disjoint ids a non-zero id always leads back |

## Left out

- Table, key, data, attribute and notification operations that only report that they are not supported, and the rest of the C frontend, which forwards.
- Real scheduling and weak memory: operations under a lock and single accesses of the shutdown flag are atomic steps; when fairness would matter a bound on steps and the absence of stuck states is proved instead.
- Packaging of tasks and futures in `submitTask`: a task is a number, and what it does while it runs is any sequence of other steps.
- Reading files and the JSON library: parsing starts from an abstract tree; widths, types, choices, annotations and learn objects are not modelled, and of key fields and notifications only the ids.
- Parsing of text into integers, addresses and floats in `_parse_int`: its input is a number, nothing, or something unparsable.
- Byte decoding of field names, and distinctness of parameter names after the suffixes for masks, ranges, prefix lengths and validity are added, which the code does not check.
- Generated method text, docstrings, prompts, table printing and regex filters.
- Flags handles, which the dump never frees, and the reading of action ids from data handles, which happens while the handles are live.
- The entries added by a table's own test: its outcome is an arbitrary status per table.
- NameIndex.TdiInfo.constructor: takes the parser's maps as lists in their order together with what the factory made of each entry; how it is made is not modelled.
- ParamNames.DataNamesApartIff: for data fields of more than 51 components the condition of AllBaseNamesDistinct is proved sufficient only; which depths over 50 the 50 tries can end at depends on the fields.
- The driver behind `dump`: its contract is a small class whose failures may happen at any call.
- `std::sort` and `std::string::find` are written out as what they compute; `strdup` and byte swapping likewise.
- Schema.PickMember: the source has no loop over siblings itself; table implementations call `removeActiveField` for each.
