# A verified model of the Mini Shell extension Framework

The Mini Shell extension Framework (MSF) is a set of C++ templates for Windows Explorer
extensions; its `.vvv` sample is a namespace extension over an INI file. This project models the
algorithms that carry their correctness and proves what the framework relies on:

| file | what it models |
|---|---|
| `words.dfy`, `hresults.dfy` | 8, 16 and 32-bit words, the casts between them, little-endian layout, C strings in memory; result codes |
| `pidl.dfy` | item-ID lists as raw bytes ([MS-SHLLINK] sections 2.2.1 and 2.2.2), and CoTaskMemAlloc and CoTaskMemFree |
| `vvv_item.dfy` | the packed 531-byte `.vvv` record: in-place writer, validation, getters |
| `cida.dfy` | the clipboard form of a selection: packer, reader, `RetrieveItems` |
| `ordering.dfy` | `CompareIDs` and everything below it, up to the 16-bit code in the HRESULT |
| `naming.dfy` | decimal printing, id paths and the section names that act as keys of the store |
| `slots.dfy` | the slots of one folder: free slot, scan, listing, batches, shape, counting |
| `vvv_store.dfy` | `VVVFile` over an INI file held as a mutable map |
| `store_runs.dfy` | runs of store operations, in one folder and across folders |
| `sample_store.dfy` | the store that ships with the sample, read by the model |
| `enumerator.dfy` | `IEnumIDListImpl::Next` and the ownership of the lists it hands out |
| `folder.dfy` | `Initialize`, `BindToObject`, `InitializeSubFolder`, and chains of binds |
| `attributes.dfy` | the attribute folds, the delete command they guard, and the rename command |
| `context_menu.dfy` | building nested context menus and finding the record of a command id |
| `file_list.dfy` | the double-NUL list of a CF_HDROP block and the loop that reads such lists |
| `shell_item_id.dfy` | item IDs composed of members, and the iterator over them |

Classes whose methods update fields are classes here; each of their methods is proved against a
function of the old state, and the theorems are about those functions. Loops are loops. Buffers
are arrays of bytes whose initial contents are arbitrary, as allocated memory is. C++ exceptions
are result values; the state an exception leaves behind is modelled.

## Where the code does not do what one would expect

These places are modelled as written. For each there is a theorem that says exactly when the
expected property holds.

- The enumeration reports slot + 1 as the id, while `DeleteItem`, `SetItem` and `AddItem` take an
  id for the slot itself. Deleting or renaming by a reported id leaves the entry as it was and
  hits the slot behind it (`Slots.DeleteByEnumeratedId`, `Slots.RenameByEnumeratedId`); if that one was a folder, the next entry added there
  reads as a folder (`StoreRuns.EnumeratedDeleteThenAdd`).
- Binding to a folder by a reported id takes the id path of the slot behind it
  (`ShellFolder.EnumeratedBind`).
- A delete keeps the root's count true exactly when its ids are distinct active slots
  (`StoreRuns.DeleteCountedExactly`), and leaves no inactive slot with a folder mark exactly when
  none of them is a folder (`StoreRuns.DeleteSoundExactly`).
- The folder key is never written by an add, the read buffer is shorter than the longest name, and
  the size 0xFFFFFFFF reads as missing. So the scan reports a new entry as it was added exactly
  when the reused slot has no folder mark, the name has at most 254 characters and the size is
  another one (`StoreRuns.AddReadsBack`).
- Once an active slot has the size 0xFFFFFFFF, which a file of that length modulo 2^32 gives it,
  enumerating the folder raises an exception (`StoreRuns.AddedIsListed`). A folder stays free of
  such slots exactly when no step of a run adds one or sets an active slot to that size
  (`StoreRuns.RunSizedExactly`), and only then no enumeration of it raises (`Slots.NoneRaisesExactly`).
- The call that raises frees what it had fetched, and the next one starts behind the bad slot. What
  a caller who goes on receives is independent of the batching exactly when all wanted slots have
  a size or none has (`Slots.DeliveryIndependentExactly`).
- The count is read from the root section and written to the folder's own, so an add in a sub
  folder keeps its count exactly when the two counts agree (`StoreRuns.SubFolderCount`), and a
  delete exactly when they differ by the number of ids that hit nothing (`StoreRuns.SubFolderDelete`).
- A menu's insertion index wraps at 2^32, and then insertion starts over at the top: the lines of a
  menu, the first of them with an id, stay in one piece and in order exactly when it does not
  (`ContextMenu.RunKeepsOrder`, `ContextMenu.WrappedIndexReverses`).
- `GetData` sums up sizes in 32 bits and allocates what comes out; it stays inside that block
  exactly when the sum fits (`Cida.GetData`).
- Comparing a single empty list with another list takes its terminator for an item
  (`Ordering.SingleEmptyList`).
- `GetName` reads on behind a name field without a NUL; it reads the name in the field exactly when a
  NUL ends it there or follows directly (`VvvItem.NameReadExactly`).
- `InitializeSubFolder` starts from nothing, so after a chain of binds the id path is the whole path
  exactly when there was at most one bind (`ShellFolder.RootChainReaches`).
- The junction point survives a bind exactly when it is a non-empty list (`ShellFolder.JunctionKept`).
- An unknown column makes an item differ from itself, so comparison is an order exactly for
  registered columns (`Ordering.CompareItemsIsOrder`).
- `IsBitSet` is true if any bit of the mask is set, so testing the AND of attributes is testing each
  of them exactly for single-bit masks (`Attributes.OneBitExactly`).
- The size cast in `CreateItemIdListWithTerminator` and in `CShellItemId` yields the list asked for
  exactly when the size fits 16 bits; the count returned by `QueryContextMenu` is exact below 2^16.
- A double-NUL list comes back whole exactly when it has no empty name (`FileList.ListRoundTrip`).
- `CShellItemIterator::GetString` does not advance, so the cursor ends where the debug build expects
  it exactly when there was no text (`ShellItemId.MembersReadBack`).
- `%d` prints an unsigned slot number as signed; names stay distinct (`Naming.SectionNamesDistinct`).

## Model

| member | source | states |
|---|---|---|
| Pidl.CreateItemIdListWithTerminator | include/msf/pidl.h:49-65 | The allocation holds one item of the asked size and a terminator if and only if the size survives the cast to 16 bits; a size whose low 16 bits are zero ends in a null dereference |
| Pidl.GetNextItem | include/msf/pidl.h:68-77 | A next position lies strictly further on, is again a complete list and is never the terminator, so walks end |
| Pidl.WalkStep | include/msf/pidl.h:68-77 | Following GetNextItem visits exactly the decoded items, in order and to the end |
| Pidl.NextFromLocal | include/msf/pidl.h:68-77 | A step over arbitrary bytes that stays inside the buffer does not depend on what lies behind it |
| Pidl.DecodeOfEncode | include/msf/pidl.h:49-77 | Any encoded list, wherever it lies in a buffer, is complete and decodes to the items it was made of |
| Pidl.EncodeOfDecode | include/msf/pidl.h:182-185 | Conversely every complete list is the encoding of what it decodes to, and GetSize counts exactly its bytes |
| Pidl.Clone | include/msf/pidl.h:17-24 | A clone decodes to the same items and has no byte more than its list |
| Pidl.CombineDecodes | include/msf/pidl.h:35-40 | Combining two lists concatenates their items |
| VvvItem.InitializeItemData | samples/vvvsample/vvv_item.h:89-96 | In-place writing of the packed record touches nothing else, puts every field at its packed offset, reads back over arbitrary old bytes, and fails exactly for names of 260 characters or more |
| VvvItem.CreateItemIdList | samples/vvvsample/vvv_item.h:18-26 | The new list holds exactly the given tuple |
| VvvItem.ConstructDecodes | samples/vvvsample/vvv_item.h:28-40 | The constructor's checks, with the 16-bit subtraction of GetDataSize, and all fields, the name as far as its field goes, depend on the data part of the item alone |
| VvvItem.ConstructExactly | samples/vvvsample/vvv_item.h:28-83 | Exactly items of at least 533 bytes with the type id are accepted, and the getters read the fields at their packed offsets |
| VvvItem.InspectValid | samples/vvvsample/vvv_item.h:28-40 | The checks on arbitrary bytes never look outside a complete, non-empty list, and there they agree with the constructor |
| VvvItem.InspectLocal | samples/vvvsample/vvv_item.h:28-40 | What is decided inside a buffer does not depend on the bytes behind it |
| VvvItem.NameReadExactly | samples/vvvsample/vvv_item.h:56-59 | Reading to the first NUL yields the name in its field if and only if a NUL ends it there or follows the field directly |
| VvvItem.HoldsItemDecodes | samples/vvvsample/vvv_item.h:46-64 | A created list is complete, is accepted by the constructor and yields the tuple it was made of |
| Cida.CidaSize | include/msf/cf_shell_id_list_handler.h:50-57 | The sizing pass yields, modulo 2^32, the ends of the offset table and of the last block |
| Cida.AddPidlToCida | include/msf/cf_shell_id_list_handler.h:77-84 | Copies the list behind the offset and, if that is behind the table entry, writes the entry and nothing else |
| Cida.GetData | include/msf/cf_shell_id_list_handler.h:48-74 | All writes stay inside the allocated block if and only if the sum of all sizes is below 2^32; then count, offset table and blocks fill it exactly |
| Cida.Layout | include/msf/cf_shell_id_list_handler.h:50-71 | The table has n + 1 entries, every block ends where the next one starts, and the last one, be it the folder, ends at the end of the buffer |
| Cida.LayoutOrdered | include/msf/cf_shell_id_list_handler.h:64-71 | Blocks are disjoint and non-empty ones have strictly increasing offsets |
| Cida.FolderDecodes | include/msf/cf_shell_id_list.h:43-46 | Count and folder list come out of the buffer as they went in |
| Cida.ChildDecodes | include/msf/cf_shell_id_list.h:48-53 | Every child list comes out with all its items |
| Cida.ChildLocal | include/msf/cf_shell_id_list.h:48-53 | What a child is found to be inside a block does not depend on the bytes behind it |
| Cida.RetrieveItems | include/msf/shell_folder_impl.h:1410-1418 | On any bytes: succeeds if and only if every child is an item inside the buffer, and then returns them in order; otherwise the first other child decides between the exception and a read outside |
| Cida.SelectionRoundTrip | include/msf/shell_folder_impl.h:1410-1418 | Created lists that were packed with any folder are all accepted and read as they were made |
| Cida.TransferSelection | include/msf/cf_shell_id_list_handler.h:48-74 | Creating, packing and retrieving any selection returns the same tuples in order, unless a name does not fit or the whole reaches 2^32 bytes |
| Ordering.CompareIDs | include/msf/shell_folder_impl.h:263-310 | On any two buffers the loop is the walk that stops at a difference, a refused item or a read outside; on two non-empty complete lists it returns the 16-bit code of the lexicographic comparison, or the failure of the first invalid item met before a difference |
| Ordering.WalkDecodes | include/msf/shell_folder_impl.h:276-301 | On non-empty complete lists the walk over the bytes stays inside them and is the comparison of the decoded items |
| Ordering.SingleEmptyList | include/msf/shell_folder_impl.h:267-279 | A lone empty list with nothing behind it makes the comparison read outside, unless the other list is refused first |
| Ordering.ComparisonLocal | include/msf/shell_folder_impl.h:263-310 | A comparison that stays inside its two buffers does not depend on the bytes behind them |
| Ordering.FailsExactly | include/msf/shell_folder_impl.h:267-310 | Two empty lists get E_INVALIDARG, and two others E_FAIL if and only if an invalid item is met before a difference |
| Ordering.LexRawDecides | include/msf/shell_folder_impl.h:276-301 | The first level that is not a tie decides: by the failure of an invalid item, by its comparison, or by the end of a list |
| Ordering.CompareIDsAllFields | include/msf/shell_folder_impl.h:864-876 | The first registered column that differs decides |
| Ordering.ByNameIsOrder | samples/vvvsample/vvv_item.cpp:128-148 | Folders first, then name, then id: an order whose only ties are equal in all three |
| Ordering.AllFieldsEqual | include/msf/shell_folder_impl.h:864-876 | With both columns the order goes on to the size, and only items alike in every field are equal |
| Ordering.CompareItemsIsOrder | include/msf/shell_folder_impl.h:805-814 | CompareItems is a total preorder if and only if it looks at registered columns only |
| Ordering.IllegalNeverEqual | samples/vvvsample/vvv_item.cpp:80-83 | With an unknown column no item equals itself |
| Ordering.LexSymmetric | include/msf/shell_folder_impl.h:275-304 | Swapping two paths swaps the sign |
| Ordering.LexTransitive | include/msf/shell_folder_impl.h:275-304 | Comparison of paths is transitive |
| Ordering.LexDecides | include/msf/shell_folder_impl.h:284-301 | The first differing level decides, and a proper prefix is smaller |
| Ordering.LexZero | include/msf/shell_folder_impl.h:275-304 | Equal means equal length and equality at every level |
| Ordering.LexRawDecodes | include/msf/shell_folder_impl.h:276-286 | On lists of valid items the walk is the comparison of the decoded items |
| Ordering.CodeKeepsResult | include/msf/shell_folder_impl.h:304 | The 16-bit code gives back the result if and only if that fits a signed short |
| Ordering.CreatedIsPath | samples/vvvsample/vvv_item.h:18-26 | Created lists can be compared, as paths of their one item |
| Ordering.VerdictIsLex | include/msf/shell_folder_impl.h:263-310 | What a caller reads from the HRESULT is the lexicographic comparison of the decoded paths |
| Ordering.VerdictIsOrder | include/msf/shell_folder_impl.h:263-310 | Seen through the HRESULT, CompareIDs is a total preorder on all paths in every legal mode |
| Ordering.VerdictSign | include/msf/shell_folder_impl.h:805-814 | The verdict is negative, zero or positive as the first path is listed before, like or after the second at the first level that differs: by folder, name and id for the name column, by size for the size column, by all of these for all fields |
| Ordering.ItemSign | samples/vvvsample/vvv_item.cpp:70-148 | The same for two items, in terms of their fields |
| Ordering.AllFieldsPathsEqual | include/msf/shell_folder_impl.h:805-814 | Under SHCIDS_ALLFIELDS two paths are equal if and only if they agree level by level in every field |
| Naming.ParseOfDecimal | samples/vvvsample/vvv_file.cpp:196-211 | Every 32-bit number written to the store reads back unchanged |
| Naming.FormatIntReads | samples/vvvsample/vvv_file.cpp:174-177 | `%d` prints a slot number below 2^31 as it is and any other as the negative number with the same bits |
| Naming.ParseStops | samples/vvvsample/vvv_file.cpp:196-199 | An integer text is read up to its last leading digit, and as zero without one |
| Naming.FormatIntInjective | samples/vvvsample/vvv_file.cpp:174-177 | `%d` on unsigned numbers prints different numbers differently |
| Naming.JoinAppend | samples/vvvsample/shell_folder.cpp:58-71 | Appending a backslash and the next id is the id path extended by that id |
| Naming.SectionInjective | samples/vvvsample/vvv_file.cpp:157-185 | A printed section name determines both the id path and the leaf name |
| Naming.SectionNamesDistinct | samples/vvvsample/vvv_file.cpp:157-185 | Item sections of different path or slot never share a name, nor do they ever have the name of a directory section |
| Slots.FirstFree | samples/vvvsample/vvv_file.cpp:138-148 | The slot found is the least one that is not active |
| Slots.Scan | samples/vvvsample/vvv_file.cpp:52-79 | The scan moves past what it delivers and stays at the first missing slot |
| Slots.ScanWithinEnd | samples/vvvsample/vvv_file.cpp:52-79 | One step delivers the first wanted slot before the first missing one, fails if that has no size, and reports the end otherwise |
| Slots.ListingExact | samples/vvvsample/vvv_file.cpp:64-75 | A listing holds every wanted slot exactly once, in slot order, with id slot + 1, and nothing else |
| Slots.FetchSplit | include/msf/enum_id_list_impl.h:78-85 | A call that raises nothing and the next one fetch together what one call for the sum fetches |
| Slots.BatchingIndependent | include/msf/enum_id_list_impl.h:69-100 | However calls are batched, as long as none raises an exception they deliver together what one call for the total would |
| Slots.FetchIsListing | samples/vvvsample/vvv_file.cpp:52-79 | Enumeration yields the whole listing up to the first missing slot, and raises an exception if and only if a wanted slot has no size |
| Slots.FetchExactly | samples/vvvsample/vvv_file.cpp:52-79 | In terms of the stored values: an enumeration ends at the first slot without an active value, raises an exception if and only if an active slot of a kind asked for has no size, and otherwise fetches exactly the active slots of the kinds asked for, with their size, folder mark and name, in slot order |
| Slots.CallsDeliverListing | include/msf/enum_id_list_impl.h:69-100 | When every wanted slot before the end has a size, any sequence of calls delivers a prefix of the listing; after a short call the listing is exhausted and every later call fetches nothing |
| Slots.DeliveredInOrder | include/msf/enum_id_list_impl.h:69-100 | Calls that go on after exceptions deliver only readable wanted slots, each at most once and in slot order |
| Slots.OneByOne | include/msf/enum_id_list_impl.h:69-100 | One item at a time they deliver exactly the wanted slots that have a size |
| Slots.DeliveryIndependentExactly | include/msf/enum_id_list_impl.h:69-100 | What they deliver depends only on the total asked for if and only if all wanted slots before the end have a size or none has |
| Slots.EnumerationComplete | samples/vvvsample/vvv_file.cpp:47-79 | When the present slots are the first n and every wanted one has a size, every wanted slot there is gets enumerated |
| Slots.NoneRaisesExactly | samples/vvvsample/vvv_file.cpp:64-75 | No enumeration, whatever its flags, raises an exception if and only if every active slot has a size |
| Slots.PrefixEnds | samples/vvvsample/vvv_file.cpp:138-148 | In such a folder both searches end, at a slot not behind the n-th |
| Slots.AddKeepsPrefix | samples/vvvsample/vvv_file.cpp:111-127 | Adding keeps the present slots a prefix |
| Slots.DeleteKeepsPrefix | samples/vvvsample/vvv_file.cpp:82-92 | So does deleting present slots or the first missing one |
| Slots.DeletePrefixExactly | samples/vvvsample/vvv_file.cpp:130-135 | Deleting one slot keeps the shape if and only if it is present or the first missing one |
| Slots.EnumeratedIdsKeepPrefix | samples/vvvsample/vvv_file.cpp:62-75 | Ids reported by the enumeration never destroy the shape |
| Slots.DeleteFoldersActive | samples/vvvsample/vvv_file.cpp:130-135 | A delete leaves no inactive slot marked as a folder if and only if it names no folder slot |
| Slots.DeleteCounts | samples/vvvsample/vvv_file.cpp:82-90 | A delete lowers the number of active slots by the distinct active ones it names |
| Slots.HitCount | samples/vvvsample/vvv_file.cpp:82-90 | As many are hit as are named if and only if the ids are distinct and active |
| Slots.RenameByEnumeratedId | samples/vvvsample/shell_folder.cpp:173-182 | After renaming by a reported id the same scan reports the old name again, and the next slot carries the new one |
| Slots.DeleteByEnumeratedId | samples/vvvsample/vvv_file.cpp:62-75 | After deleting by a reported id the same scan reports the same entry again, and the next slot is inactive |
| VvvStore.ItemWritten | samples/vvvsample/vvv_file.cpp:95-101 | SetItem changes size and name of its slot, the name as far as it can be read back, and no other slot, flag or count |
| VvvStore.AddedSlot | samples/vvvsample/vvv_file.cpp:122-127 | The complete effect of an add on all slots and the count, exception or not; the folder mark stays |
| VvvStore.DeletedSlot | samples/vvvsample/vvv_file.cpp:82-92 | The complete effect of a delete on all slots and the count, exception or not |
| VvvStore.SomeSlotMissing | samples/vvvsample/vvv_file.cpp:138-148 | In a store of k sections, any k + 1 consecutive slots include a missing one |
| VvvStore.FiniteStoreEnds | samples/vvvsample/vvv_file.cpp:54-60 | The unbounded loops end on every store with fewer than 2^32 sections |
| VvvStore.VVVFile.GetFileCount | samples/vvvsample/vvv_file.cpp:38-44 | Always the root's count, whatever the folder |
| VvvStore.VVVFile.SetFileCount | samples/vvvsample/vvv_file.cpp:151-154 | The folder's own count reads as what was written, and no slot of any folder changes |
| VvvStore.VVVFile.SetItem | samples/vvvsample/vvv_file.cpp:95-101 | The two writes set size and name of the slot, the name as far as it can be read back, and change no other slot, flag or count |
| VvvStore.VVVFile.FindFreeEntry | samples/vvvsample/vvv_file.cpp:138-148 | The loop returns the least slot that is not active |
| VvvStore.VVVFile.AddItem | samples/vvvsample/vvv_file.cpp:111-127 | Adds to the least free slot and returns a live list holding exactly the added entry; on a missing count the entry stays but the list is freed |
| VvvStore.VVVFile.DeleteItems | samples/vvvsample/vvv_file.cpp:82-92 | The loop deactivates all named slots before the count is touched |
| VvvStore.VVVFile.GetNextItem | samples/vvvsample/vvv_file.cpp:52-79 | The loop delivers what Scan says as a fresh list in bytes, and allocates nothing otherwise |
| StoreRuns.AddKeepsCounted | samples/vvvsample/vvv_file.cpp:111-127 | Adding keeps the shape and the count of the root right, and its folder marks |
| StoreRuns.SetKeepsCounted | samples/vvvsample/vvv_file.cpp:95-101 | So does changing an item, even at a slot that does not exist |
| StoreRuns.DeleteCountedExactly | samples/vvvsample/vvv_file.cpp:82-92 | Deleting keeps shape and count right if and only if the ids are distinct and active |
| StoreRuns.DeleteSoundExactly | samples/vvvsample/vvv_file.cpp:82-92 | It also leaves no inactive slot marked as a folder if and only if, moreover, no id is a folder |
| StoreRuns.SizedExactly | samples/vvvsample/vvv_file.cpp:82-127 | An operation keeps the sizes of all active slots readable if and only if it gives no active slot the size 0xFFFFFFFF |
| StoreRuns.RunCountedExactly | samples/vvvsample/vvv_file.cpp:82-154 | Along every run over any folders, with room in the root, the root's count is the number of its active slots all the time if and only if every delete there names distinct active slots |
| StoreRuns.RunSoundExactly | samples/vvvsample/vvv_file.cpp:82-154 | Moreover no inactive slot of the root is ever marked as a folder if and only if no such delete names a folder |
| StoreRuns.RunSizedExactly | samples/vvvsample/vvv_file.cpp:64-127 | Along every run over any folders a folder has only readable sizes all the time if and only if no step in it adds an entry of size 0xFFFFFFFF or sets an active one to it |
| StoreRuns.RunKeepsTidy | samples/vvvsample/vvv_file.cpp:82-154 | Every folder keeps its shape and folder marks along runs whose deletes in it name distinct active plain slots, whatever happens elsewhere |
| StoreRuns.PerformAll | samples/vvvsample/vvv_file.cpp:82-135 | Carrying out a run with the methods of the store leaves the file in the state the run theorems speak of |
| StoreRuns.NewStoreIsSound | samples/vvvsample/vvv_file.cpp:38-60 | A store without entries is sound and has readable sizes, so runs can start there |
| StoreRuns.AddReadsBack | samples/vvvsample/vvv_file.cpp:64-75 | The scan reports a new entry as it was added if and only if the reused slot has no folder mark, the name has at most 254 characters and the size is not 0xFFFFFFFF |
| StoreRuns.AddedIsListed | samples/vvvsample/vvv_file.cpp:52-79 | In a sound root with readable sizes an enumeration of the plain entries fetches the entry just added, under its slot + 1, if and only if its name has at most 254 characters and its size is readable; with the other size it raises an exception |
| StoreRuns.EnumeratedDeleteThenAdd | samples/vvvsample/vvv_file.cpp:82-135 | Deleting the plain entry before a folder by its reported id makes the next added entry read as a folder |
| StoreRuns.OtherFolderUntouched | samples/vvvsample/vvv_file.cpp:82-185 | No operation in one folder changes any slot or the count of another |
| SampleStore.SampleIsListed | samples/vvvsample/vvv_file.cpp:52-79 | The shipped sample store shows its two files and two directories, each kind if and only if its flag is given, with their names and sizes |
| SampleStore.SampleIsSound | samples/vvvsample/sample1.vvv:1-24 | The shipped sample store is sound and has readable sizes, so the run theorems hold from there |
| SampleStore.SectionText | samples/vvvsample/vvv_file.cpp:157-185 | Sections below the root are spelled with the id path, a backslash and the leaf name |
| StoreRuns.SubFolderCount | samples/vvvsample/vvv_file.cpp:122-127 | An add keeps a sub folder's count right if and only if it equals the root's |
| StoreRuns.SubFolderDelete | samples/vvvsample/vvv_file.cpp:82-90 | A delete keeps a sub folder's count right if and only if the root's exceeds it, in 32 bits, by the ids that hit nothing; for distinct active ids, if and only if the two are equal |
| Enumerator.ItemIdListVector.PushBack | include/msf/enum_id_list_impl.h:42-46 | The caller's array and the guard agree on the lists stored so far |
| Enumerator.ItemIdListVector.Destroy | include/msf/enum_id_list_impl.h:26-35 | Frees each guarded list once, and none after release |
| Enumerator.EnumIDList.GetNextItem | samples/vvvsample/enum_id_list.h:36-39 | Advances the iterator state by one scan |
| Enumerator.EnumIDList.Next | include/msf/enum_id_list_impl.h:69-100 | S_OK if and only if all were fetched; on success exactly the fetched lists are newly live and stored in order, on an exception nothing is |
| Enumerator.EnumIDList.CallAll | include/msf/enum_id_list_impl.h:69-100 | A caller who goes on after exceptions ends up owning exactly the lists that hold what is delivered |
| ShellFolder.ShellFolder.Initialize | include/msf/shell_folder_impl.h:141-162 | Sets the folder list, and the junction point only if that was empty; the id path stays |
| ShellFolder.ShellFolder.InitializeSubFolder | samples/vvvsample/shell_folder.cpp:58-71 | The loop prints the id path of its argument, whatever was there before |
| ShellFolder.ShellFolder.CollectItems | include/msf/shell_folder_impl.h:235-241 | The loop ends and yields exactly the decoded items, or fails if and only if one is invalid |
| ShellFolder.ShellFolder.BindToObject | include/msf/shell_folder_impl.h:220-254 | A new folder in the state Bind describes, or its error; the folder itself is unchanged |
| ShellFolder.BindStep | include/msf/shell_folder_impl.h:233-246 | One bind appends the relative list, keeps the junction point and takes the relative id path |
| ShellFolder.BindExactly | include/msf/shell_folder_impl.h:220-254 | E_FAIL if and only if an item of the list is invalid, E_OUTOFMEMORY if and only if all are valid but there is no junction point; otherwise the lists, the junction point and the id path of the new folder |
| ShellFolder.EnumeratedBind | samples/vvvsample/shell_folder.cpp:58-71 | Binding to what the enumeration reports for a slot takes the id path of the slot behind it |
| ShellFolder.ChainReaches | include/msf/shell_folder_impl.h:220-254 | Any chain of binds succeeds and accumulates the lists in order, with the id path of the last step only |
| ShellFolder.RootChainReaches | include/msf/shell_folder_impl.h:141-162 | From an initialized root the junction point stays the root's, and the id path is the whole path if and only if there was at most one bind |
| ShellFolder.JunctionKept | include/msf/shell_folder_impl.h:150-154 | A bind keeps the junction point if and only if that is a non-empty list |
| Attributes.CanDelete | samples/vvvsample/vvv_item.cpp:44-67 | Deletion is offered for plain items of a writable store and nothing else |
| Attributes.OneBitExactly | include/msf/macros.h:52-55 | Testing an AND tests each part if and only if the mask is a single bit |
| Attributes.AndHasBit | include/msf/shell_folder_impl.h:480-485 | For one bit the fold has it if and only if every item has it |
| Attributes.HasAttributesOf | include/msf/shell_folder_impl.h:1436-1459 | On any block: the early exit gives the answer of the full AND; a refused item, or one outside the block, matters only if no exit came before it |
| Attributes.TestExactly | include/msf/shell_folder_impl.h:1436-1459 | For one bit the test says no, yes or fails exactly as, child by child, one lacks the bit, all have it, or another child than an item comes first |
| Attributes.GetAttributesOf | include/msf/shell_folder_impl.h:467-496 | Fails if and only if an item is invalid; otherwise the requested bits of the AND over all items, which AnswerTells spells out |
| Attributes.AnswerTells | samples/vvvsample/vvv_item.cpp:44-67 | A requested bit is in the answer for a selection if and only if: all are folders (FOLDER, HASSUBFOLDER), all are plain (CANCOPY), moreover in a writable store (CANMOVE, CANRENAME, CANDELETE), it is one plain item (HASPROPSHEET); no other bit ever is |
| Attributes.TestsAgree | include/msf/shell_folder_impl.h:467-496 | For one bit and a non-empty selection both folds and the test of every single item agree |
| Attributes.SelectionCanDelete | include/msf/shell_folder_impl.h:1427-1434 | A non-empty selection passes the delete check if and only if all of it is plain and the store is writable |
| Attributes.OnDeleteFromDataObject | include/msf/shell_folder_impl.h:1139-1168 | On any block: the children are deleted if and only if there are any, all are plain items, the store is writable and the user confirmed or was not asked; otherwise the store stays and each refusal comes exactly in its own case |
| Attributes.OnSetNameOf | samples/vvvsample/shell_folder.cpp:173-182 | The new name goes to the slot with the item's id and into the returned list; otherwise nothing changes |
| ContextMenu.RunRecords | include/msf/context_menu_impl.h:191-198 | Also when a build is cut short: counter, records and ids agree, and ids are contiguous from the first and below the limit |
| ContextMenu.RecordedCalls | include/msf/context_menu_impl.h:84-198 | The i-th record holds text, help, command and handler of the i-th call for a line with an id, under the i-th id |
| ContextMenu.RunSucceedsExactly | include/msf/context_menu_impl.h:162-189 | A build is completed if and only if the window system serves every call and the ids below the limit suffice |
| ContextMenu.RunAddsLines | include/msf/context_menu_impl.h:179-189 | The menus gain exactly one line per record and the separators, so ids are unique; nothing is lost |
| ContextMenu.RunPlacesLines | include/msf/context_menu_impl.h:84-189 | Whatever happens in other menus, a menu ends up as if its own lines had been inserted one after the other at its advancing 32-bit index, and nothing else had |
| ContextMenu.RootMenuHolds | include/msf/context_menu_impl.h:222-248 | From the given index on the given menu gets its own lines, and no other existing menu changes |
| ContextMenu.SubMenuOpens | include/msf/context_menu_impl.h:84-109 | The line of a sub menu opens the new, empty menu, which is filled from the top |
| ContextMenu.PlacedWrapped | include/msf/context_menu_impl.h:162-189 | When the index wraps once, the lines after the wrap come out before all others |
| ContextMenu.InOnePieceExactly | include/msf/context_menu_impl.h:162-189 | Lines of which the first differs from the others stand in one piece if and only if the index does not wrap before the last of them |
| ContextMenu.RunKeepsOrder | include/msf/context_menu_impl.h:84-155 | Lines added through one menu, the first of them not a separator, stand in one piece at its insertion index in call order if and only if the index does not wrap before the last of them |
| ContextMenu.WrappedIndexReverses | include/msf/context_menu_impl.h:162-189 | Two items added to an empty menu at index 0xFFFFFFFF come out in reverse |
| ContextMenu.DispatchFindsRecord | include/msf/context_menu_impl.h:393-406 | An id finds a record if and only if the build gave it out, and then the record of the call that inserted its line, in spite of the wrapping subtraction |
| ContextMenu.InvokeFindsCommand | include/msf/context_menu_impl.h:279-296 | A verb reaches the command given with the line whose id is the first id plus the verb, and is rejected if and only if it has a high word or no line has that id |
| ContextMenu.MessageFindsHandler | include/msf/context_menu_impl.h:393-406 | A message about an id reaches exactly the handler given with the line of that id, a null pointer if and only if none was given, and is rejected if and only if no line has that id; drawing also for other controls than menus |
| ContextMenu.AddedCountExact | include/msf/context_menu_impl.h:241-242 | The returned count is the number of ids used if and only if that is below 2^16 |
| ContextMenu.Menu.InsertMenuItem | include/msf/context_menu_impl.h:162-198 | Inserts, records and counts, or fails without a trace |
| ContextMenu.Menu.AddSubMenu | include/msf/context_menu_impl.h:84-109 | The new menu shares counter, limit and host; a failure leaves at most an unused popup behind |
| ContextMenu.Menu.AddSeparator | include/msf/context_menu_impl.h:149-155 | A line without id: neither counter nor host changes |
| ContextMenu.ContextMenuImpl.QueryContextMenuCore | include/msf/context_menu_impl.h:384-386 | Any sequence of calls on nested menu objects does to counter, host and menus what the state machine says |
| ContextMenu.ContextMenuImpl.QueryContextMenu | include/msf/context_menu_impl.h:222-248 | Each call starts over, so the records are those of this build alone, completed or cut short |
| ContextMenu.ContextMenuImpl.InvokeCommand | include/msf/context_menu_impl.h:279-296 | Verbs with a high word and offsets out of range are rejected; others reach the recorded command |
| ContextMenu.ContextMenuImpl.OnMeasureItem | include/msf/context_menu_impl.h:402-406 | The reply of which MessageFindsHandler says what it is |
| ContextMenu.ContextMenuImpl.OnDrawItem | include/msf/context_menu_impl.h:393-400 | The same for drawing |
| FileList.FileList.GetDataSize | include/msf/file_list.h:98-108 | The 32-bit count gives header plus all names with their NULs plus one |
| FileList.FileList.CreateData | include/msf/file_list.h:75-96 | The loop fills the block exactly to its end and leaves the header intact |
| FileList.QueryMultiStringValue | include/msf/util.h:174-191 | The loop stays in bounds, ends and returns the strings of the list |
| FileList.ParseOfWritten | include/msf/util.h:187-191 | Reading a written list yields the names before the first empty one |
| FileList.ListRoundTrip | include/msf/util.h:187-191 | The list comes back whole if and only if no name is empty |
| FileList.TransferNames | include/msf/file_list.h:75-96 | Writing a block and reading its code units with the loop returns the names before the first empty one, so all of them if and only if none is empty |
| ShellItemId.Create | include/msf/shell_item_id.h:50-74 | Members are laid out in order, and the result is a one-item list if and only if the size fits 16 bits |
| ShellItemId.MemberLayout | include/msf/shell_item_id.h:17-43 | A flag is one byte, a number four bytes and a text its code units and a NUL |
| ShellItemId.MembersReadBack | include/msf/shell_item_id.h:134-152 | Members read back in order, and the cursor ends at the end of the item if and only if there was no text |
| ShellItemId.CreatedReadsBack | include/msf/shell_item_id.h:115-152 | The same for a created item, which decodes as a list of that one item |
| ShellItemId.ReadMembers | include/msf/shell_item_id.h:115-152 | Calling the getters one after the other reads what ReadAll says, as far as the item lies in the buffer |
| ShellItemId.CreateAndRead | include/msf/shell_item_id.h:50-152 | Creating an item of any size and calling its getters gives the members back; the cursor ends behind them if and only if there was no text |

## Left out

- COM identity, reference counts, registration, windows, icons, property sheets, info tips, drag effects and change notifications: foreign calls and boilerplate.
- The INI file itself: sections and keys form a map that stores text verbatim and always accepts writes. Trimming of blanks and quotes, case folding of section names, hexadecimal and signed number texts, and write failures are not modelled; an integer is read as its leading decimal digits in 32 bits.
- Memory allocation always succeeds, so E_OUTOFMEMORY appears only for cloning a junction point that does not exist.
- Pidl.GetNextItem: requires a complete list, as every caller of the shell's list functions must pass; ILGetNext, ILGetSize, ILClone and ILCombine are given by their documented meaning.
- VvvItem.ConstructDecodes: the name of an item is taken from its field, up to 260 characters; for a field without a NUL, where the source reads on, NameReadExactly says when that makes no difference.
- VvvItem.InspectValid: what a read outside the buffer finds is not modelled; it is the outcome Outside, also where a getter that would need it is never called.
- Cida.GetData: requires that every single list is smaller than 2^32 bytes, as ILGetSize counts in 32 bits; a write behind the end of the block is an outcome that ends the call.
- Ordering.VerdictIsOrder: StrCmpW is any function that is an order and has results in the signed 16-bit range; its locale rules are not part of this model.
- VvvStore.VVVFile.AddItem: a name of 260 characters or more ends in the invalid-parameter handler of the C library, which is one outcome here; taking name and size from a file on disk is left out.
- VvvStore.VVVFile.GetNextItem: requires that some slot from the iterator on is missing, which every store with few enough sections provides.
- Enumerator.EnumIDList.Next: the error code of any exception is E_FAIL; Skip, Reset and Clone are not implemented in the source.
- ShellFolder.ShellFolder.BindToObject: the interface query is a yes-or-no parameter, and the relative list is not empty.
- ContextMenu.ContextMenuImpl.QueryContextMenu: a derived class is a list of calls on its menus, and failures of the window system are part of each call, all with the error code E_FAIL; catching an exception half-way and continuing is not modelled. Custom handlers are opaque and do not change the id they are given.
- ContextMenu.RunKeepsOrder: leaves out menus whose first added line is a separator, as separators cannot be told apart; RunPlacesLines covers them.
- ContextMenu.ContextMenuImpl.InvokeCommand: the record of a popup has no command, and calling it is the outcome NullTarget instead of undefined behaviour.
- FileList.FileList.CreateData: requires that the number of characters fits 32 bits; the point and the non-client flag of the header are left as allocated.
- ShellItemId.ReadMembers: a getter whose read would leave the buffer ends the reading; the source does not check.
- FileList.QueryMultiStringValue: requires a buffer that ends in NUL, which the registry wrapper provides.
- OnProperties, GetItemDetailsOf, GetDisplayName, GetIconOf and OnMenuChar: they add only easy claims to what is proved.
- Attach, Detach, AppendID and the destructor of ItemIDList: a list held by an object is a value here; ownership is modelled where lists are handed over, in the enumerator.
