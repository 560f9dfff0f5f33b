# Verified model of miniStudio's algorithms

miniStudio is a GUI builder. Under its windows are several self-contained
algorithms and state machines; this project models them in Dafny and proves
what they do. `dafny verify dfyconfig.toml` checks everything.

Code that changes things step by step is modelled as methods with loops and
classes with mutable fields, each proved against a function of its inputs or
its old state; the properties are lemmas about those functions.

| files | what they model |
|---|---|
| Wrappers, Common | the option type, bytes, ids and lists without repetitions |
| KmpSearch | the Knuth-Morris-Pratt search with its byte table, exact and without capitals |
| PropertyModel, RangedLookup | property values of classes and instances, single and bulk lookup |
| UndoHistory, UndoRing | undo and redo: whole runs as values, and the ring of self-reversing commands |
| CodeTree, CodeMerge, CodeMergeTheorems, CodeDocument | merging freshly generated code into a file with user code |
| CodeGrammar, CodeReader, CodeRoundTrip, CodeMarkers, CodeFirstWord, CodeFiles | reading and printing such files, and merging one file into another any number of times |
| IdRange, IdOwners, IdSearch, IdFree, IdCounters, IdManager, ResourceEditor | resource ids: ranges, enumeration, free intervals, use counters, and the resources under ids and names |
| IdReload, IdAdd, IdLinks | growing lists of ranges, saving and loading them, and the links between ranges, managers and owners |
| GridSizes, GridLayout, GridWalk | distributing sizes in a grid, cell rectangles, hit test and walk |
| ImageList, ImageLoader | the list of views that wait for their images, and the protocol between callers and the loading thread |
| PackageBytes, PackageStrings, PackageWriter | the binary resource package: writer and run-time reader |

## Where the code departs from its intent

The model follows the code; each of these is a theorem.

- The failure table has one byte per entry. The search is right for all
  patterns of a length if and only if that is at most 257
  (`KmpSearch.LengthDecides`), and for a longer pattern if and only if the cut
  table still falls back right (`KmpSearch.RightExactlyWhen`).
- `upper` leaves the letters a and z alone (`KmpSearch.UpperEquates`).
- Freeing the redo part tests for the end before it wraps. It never stops when
  the redo cursor is zero and there is something to free, which any ring
  reaches (`UndoHistory.EmptyRedoStops`, `UndoHistory.FullRingThenEditHangs`).
- Resetting a property that was not set is recorded as if it had been
  (`UndoHistory.DefaultUndone`), and so is an edit of a text that was not set
  (`UndoHistory.EditUndone`).
- The element reader takes the first word of an unnamed text for a name and
  loses characters unless the first line is one unbroken word; an otherwise
  well-formed document is read back exactly when nothing is lost there
  (`CodeFirstWord.ReadBackExactlyWhen`). Every writing and reading puts one
  blank more in front of the first text of a named section
  (`CodeFiles.BlanksGather`).
- A merge drops the texts of a source section that exceed the number of texts
  in the target section (`CodeMergeTheorems.CombineCarriesTexts`), a second
  merge wraps a missing section again (`CodeMergeTheorems.CombineTwice`), and a
  new section at the end gets a null text behind it when it is read
  (`CodeFiles.CombinedLoads`).
- The enumeration of the ids of one owner walks into ranges of others that
  stand behind its own (`IdOwners.OnlyOwnIds`), and it does not end when a range
  that counts more than it holds comes before one with room
  (`IdRange.CallsEnumerate`).
- A range added as the second one of a list is put first, one that joins both
  neighbours loses the one behind, and one that only touches another owner's
  loses an id (`IdAdd.AddIsRight`).
- A range that ends at the upper limit or above stretches free intervals that
  lie lower (`IdFree.FreeIsRight`).
- Saved ranges that touch are merged or shifted when they are loaded
  (`IdReload.ReloadRebuilds`), and a range pushed behind one of another owner
  loses an id (`IdReload.AddLastHolds`).
- Renumbering moves the use counters before it looks whether there is such a
  resource, and creating with a given id does not look at all
  (`ResourceEditor.ResEditor.SetResId`, `ResourceEditor.ResEditor.CreateRes`).
- When nothing is left to distribute, automatic columns keep stale sizes
  (`GridSizes.FitsExactlyWhen`, `GridWalk.StaleSizeOverflows`). Without
  explicit sizes the hit test takes points in front of the grid for the first
  unit (`GridLayout.EvenHit`).
- An empty string pool writes no section although the type table has an item
  for it, and the name of the default renderer is lost
  (`PackageWriter.ReadsBackExactlyWhen`). A string with a NUL inside is cut
  there while its padding counts the whole (`PackageStrings.SaveString`).

## Model

| member | source | states |
|---|---|---|
| KmpSearch.FailureForward | mgfc/mgctrl.cpp:264-288 | filling the byte table in place gives the failure table of the keys, which holds every longest border exactly when each of them is at most 255; at most 2m rounds |
| KmpSearch.MatchForward | mgfc/mgctrl.cpp:290-323 | returns the start of the leftmost occurrence, or -1 exactly when there is none, for every pattern of 1 to 257 characters, and for longer ones whose borders fit or whose cut table always falls back right; at most 2n rounds |
| KmpSearch.MatchExact | mgfc/mgctrl.cpp:290-323 | the search with capitals: leftmost occurrence for patterns of 1 to 257 characters |
| KmpSearch.MatchNoCaps | mgfc/mgctrl.cpp:416-447 | the search without capitals, for patterns of 1 to 257 characters: the leftmost place where all characters agree under upper, or -1 exactly when there is none |
| KmpSearch.TableHoldsBorders | mgfc/mgctrl.cpp:264-288 | the table built by the code is the table of longest proper borders if and only if all of them fit into a byte |
| KmpSearch.BuildHoldsBorders | mgfc/mgctrl.cpp:264-288 | at any point of the construction: as far as the borders fit into a byte, the finished table will hold them |
| KmpSearch.ScanIsLeftmost | mgfc/mgctrl.cpp:290-323 | from any aligned point of the scan on, what is returned is the leftmost occurrence in the whole text |
| KmpSearch.SearchIsLeftmost | mgfc/mgctrl.cpp:290-323 | the search is right whenever the borders of the pattern, but for the last one, fit into a byte; RightExactlyWhen has the exact condition |
| KmpSearch.ShortPatternsFit | mgfc/mgctrl.cpp:264-323 | patterns up to 257 characters meet the condition for the search, up to 256 that for the whole table |
| KmpSearch.RightExactlyWhen | mgfc/mgctrl.cpp:264-323 | a pattern is found right in every text if and only if, for every matched length and every next character, the fallbacks through the cut table lead to the longest part of the pattern that is still matched |
| KmpSearch.LongPatternIsMissed | mgfc/mgctrl.cpp:264-323 | for every length from 258 on, a pattern and a text with an occurrence that the search does not find |
| KmpSearch.LengthDecides | mgfc/mgctrl.cpp:264-323 | all patterns of a length are found right in all texts if and only if the length is at most 257 |
| KmpSearch.UpperEquates | mgfc/mgctrl.cpp:388 | upper makes two characters equal exactly when they are equal without regard to case and are not a pair of the letters a or z |
| PropertyModel.ExecuteSwaps | common/class-instance.cpp:1483-1507 | a command exchanges what it remembers with the live state of its property if and only if it can install what it remembers, or both agree |
| PropertyModel.PutBack | common/class-instance.cpp:1483-1507 | putting a state and then the one that was there before gives back all fields |
| PropertyModel.NearestType | common/class-instance.cpp:53-70 | the type of a property is that of the nearest class of the chain that declares it |
| PropertyModel.TypedExactlyWhen | common/class-instance.cpp:53-70 | it has one if and only if some class of the chain declares it |
| PropertyModel.NearestDefault | common/class-instance.cpp:141-154 | the default is that of the nearest class of the chain that has one |
| PropertyModel.NoDefault | common/class-instance.cpp:141-154 | without such a class it is 0 and does not exist |
| PropertyModel.DefaultedExactlyWhen | common/class-instance.cpp:149-154 | a default exists if and only if some class of the chain has one |
| PropertyModel.SetSets | common/class-instance.cpp:671-720 | a field is set, and read as set, if and only if the instance is not locked and some class of the chain declares it |
| PropertyModel.CleanCleans | common/class-instance.cpp:722-739 | a text is cleaned by force only, any other declared property always, and it then shows the default |
| PropertyModel.CleanUndeclared | common/class-instance.cpp:722-739 | what no class declares is cleaned by force only |
| PropertyModel.MemoIs | common/class-instance.cpp:1461-1473 | a command keeps the value of a declared property, and 0 for any other |
| RangedLookup.CopyRange | common/class-instance.cpp:1157-1164 | walking a map from the first key of a range overlays exactly the entries of the range |
| RangedLookup.GetRangedDefaultValue | common/class-instance.cpp:115-131 | the recursion over the superclasses overlays the defaults from the topmost class down |
| RangedLookup.GetRangedFields | common/class-instance.cpp:1150-1165 | the bulk lookup is the overlay of the class defaults and then the instance fields |
| RangedLookup.DefaultsArePointwise | common/class-instance.cpp:115-154 | along any chain of classes the bulk lookup has, for each id of the range with a default, the value that the single lookup gives, and leaves every other id alone |
| RangedLookup.RangedIsPointwise | common/class-instance.cpp:655-669 | for each id of the range the bulk result has the value of getField exactly when isFieldExist; all other ids are as they were |
| UndoRing.Instance.SetField | common/class-instance.cpp:671-720 | the field is set exactly on an unlocked instance some class of whose chain declares it; otherwise nothing changes |
| UndoRing.Instance.CleanField | common/class-instance.cpp:722-739 | the fields after cleanField; a text or an unknown property is cleaned by force only |
| UndoRing.PropertyCommand.constructor | common/class-instance.cpp:1461-1473 | the memo that a new command has |
| UndoRing.PropertyCommand.Execute | common/class-instance.cpp:1483-1507 | execute on objects is the swap of values: new fields and new memo |
| UndoRing.UndoRedoObserver.constructor | common/defundo-redo-observer.cpp:27-40 | an empty ring; a maximum below the minimum is raised to it |
| UndoRing.UndoRedoObserver.CursorsTell | include/defundo-redo-observer.h:35-36 | comparing the three cursors tells exactly whether there is something to undo or to redo |
| UndoRing.UndoRedoObserver.EmptyRedo | common/defundo-redo-observer.cpp:111-121 | frees exactly the commands that could be redone, given that the loop stops |
| UndoRing.UndoRedoObserver.DropHead | common/defundo-redo-observer.cpp:53-78 | a full ring loses its oldest command, which is freed, and no other |
| UndoRing.UndoRedoObserver.Append | common/defundo-redo-observer.cpp:53-78 | the new command becomes the last one |
| UndoRing.UndoRedoObserver.PushUndoRedoCommand | common/defundo-redo-observer.cpp:53-78 | a push on the array with three cursors is a push on the bounded list: the redo part goes, the command is appended, only the oldest goes when full; a freed command is never in the ring |
| UndoRing.UndoRedoObserver.Undo | common/defundo-redo-observer.cpp:80-93 | undo on the array is one undo of the session, and returns the command that was executed |
| UndoRing.UndoRedoObserver.Redo | common/defundo-redo-observer.cpp:95-109 | redo on the array is one redo of the session, and returns the command that was executed |
| UndoRing.FieldPanel.UpdateValue | uieditor/fieldpanel.cpp:142-179 | an edit in the panel is the recorded edit of the session; the field is set exactly when the id is not 0 and some class of the chain declares it |
| UndoRing.FieldPanel.SetDefValue | uieditor/fieldpanel.cpp:380-403 | resetting a property to its default is the recorded reset of the session |
| UndoHistory.PushFollows | common/defundo-redo-observer.cpp:53-78 | recording a change whose reversal the command holds keeps session and history in step, also when the oldest entry drops out |
| UndoHistory.StepFollows | common/defundo-redo-observer.cpp:53-121 | each undo, redo and each edit or reset that does nothing or can be taken back, of whatever type, keeps the live values, every command and its memo in step with a plain history of states |
| UndoHistory.RunFollows | common/defundo-redo-observer.cpp:53-121 | so does every run that returns |
| UndoHistory.RunShowsHistory | common/defundo-redo-observer.cpp:53-121 | after any run from a fresh ring the live values are the history state at the cursor, and the ring has one command fewer than there are states, at most its size less one |
| UndoHistory.UndoThenRedoOne | common/defundo-redo-observer.cpp:80-109 | undo reaches the state before the edit, and redo after undo restores values, commands and cursor |
| UndoHistory.UndoReaches | common/defundo-redo-observer.cpp:80-93 | k undos reach the state k edits ago |
| UndoHistory.UndoThenRedo | common/defundo-redo-observer.cpp:80-109 | k undos and then k redos restore all values and all memos |
| UndoHistory.EditSets | uieditor/fieldpanel.cpp:142-179 | what is recorded is exactly what has an id and is declared in the chain, and then the new value is there |
| UndoHistory.DefaultResets | uieditor/fieldpanel.cpp:380-403 | a reset is recorded, with the value seen, if and only if the instance has the property or some class of the chain a default of it |
| UndoHistory.EditUndone | uieditor/fieldpanel.cpp:142-179 | undoing an edit restores the world if and only if the property is no text or had been set on the instance |
| UndoHistory.DefaultUndone | uieditor/fieldpanel.cpp:380-403 | undoing a reset to the default restores the world if and only if the property had been set on the instance or has no type; the recorded flag says so even when it had not |
| UndoHistory.EmptyRedoStops | common/defundo-redo-observer.cpp:111-121 | the freeing loop stops exactly when there is nothing to free or the redo cursor is not zero, because the end is tested before wrapping |
| UndoHistory.FullRingThenEditHangs | common/defundo-redo-observer.cpp:53-121 | for every ring size and every property that the panel records: as many edits as slots, one undo and one more edit never return |
| CodeDocument.Clone | common/codecombin.cpp:224-248 | a copy equals the original |
| CodeDocument.ReplaceAutoGenPart | common/codecombin.cpp:620-649 | the loop over both child lists replaces text by text |
| CodeDocument.DisableCode | common/codecombin.cpp:589-618 | puts the two directives around what the section prints |
| CodeDocument.GetAutoChild | common/codecombin.cpp:356-385 | finds the first generated section, or the first of a name |
| CodeDocument.CompoundElement.AppendChild | common/codecombin.cpp:387-405 | the child becomes the last one |
| CodeDocument.CompoundElement.InsertChild | common/codecombin.cpp:430-471 | the child goes behind or before the given one, or to the end |
| CodeDocument.CompoundElement.MergeSection | common/codecombin.cpp:502-547 | one named source section refreshes the one of its name or is inserted behind the last |
| CodeDocument.CompoundElement.DisableMissingSections | common/codecombin.cpp:502-547 | disables exactly the named sections that the source lacks |
| CodeDocument.CompoundElement.Combin | common/codecombin.cpp:502-547 | merging in place gives the merge of the two trees |
| CodeMerge.ReplaceTextAt | common/codecombin.cpp:620-649 | the k-th text becomes the k-th new one; a missing or null one leaves it |
| CodeMerge.ReplaceTextsKeeps | common/codecombin.cpp:620-649 | everything that is not a text, user sections included, stays what and where it is |
| CodeMerge.ReplaceTextsTwice | common/codecombin.cpp:620-649 | replacing the same texts again changes nothing |
| CodeMerge.ReplaceTextsOwn | common/codecombin.cpp:620-649 | replacing texts by themselves changes nothing |
| CodeMerge.ReplaceOther | common/codecombin.cpp:620-649 | a section of another name is not refreshed |
| CodeMerge.DisableMeaning | common/codecombin.cpp:589-618 | a disabled section prints what it printed between #if 0 and #endif, and only its texts change |
| CodeMerge.MergeOneSections | common/codecombin.cpp:502-547 | one step refreshes or inserts one section and leaves all others alone |
| CodeMerge.MergeUpToSections | common/codecombin.cpp:502-547 | after any number of steps each named section is what its own step made of it |
| CodeMergeTheorems.CombineKeepsUserCode | common/codecombin.cpp:502-547 | for all trees: the children of the target that are not generated, those of its generated sections that are followed by name, in their order, and all user code nested in them stay word for word |
| CodeMergeTheorems.CombineSections | common/codecombin.cpp:502-547 | which named sections there are after a merge and what each of them is |
| CodeMergeTheorems.CombineCarriesTexts | common/codecombin.cpp:502-547 | each source section is in the result; its k-th text is the k-th text there as long as that section has a k-th one, and the source texts beyond that number are dropped |
| CodeMergeTheorems.CombineDisables | common/codecombin.cpp:502-547 | a target section is wrapped exactly when the source has none of its name; its user part is kept either way |
| CodeMergeTheorems.CombineSettles | common/codecombin.cpp:502-547 | a second merge changes nothing when the source has all names of the target |
| CodeMergeTheorems.CombineGrows | common/codecombin.cpp:502-547 | otherwise a second merge wraps once more |
| CodeMergeTheorems.CombineTwice | common/codecombin.cpp:502-547 | merging twice is merging once if and only if no target name is missing from the source |
| CodeMergeTheorems.CombineOrders | common/codecombin.cpp:502-547 | a newly inserted section is behind its predecessor in the source with no generated section between |
| CodeReader.File.GetNStr | common/codecombin.cpp:27-41 | reads n characters or to the end |
| CodeReader.File.UngetNStr | common/codecombin.cpp:43-53 | what is pushed back is read again next |
| CodeReader.File.ReadWord | common/codecombin.cpp:55-88 | reads a word up to a splitter, which is dropped, or up to a newline, which alone is pushed back |
| CodeReader.LoadText | common/codecombin.cpp:111-161 | reading a text in pieces of the buffer gives the text up to the next marker, whatever the length |
| CodeReader.LoadHeader | common/codecombin.cpp:261-302 | reads the quoted name, or pushes back a word that is not id, without the splitter behind it |
| CodeReader.NextChild | common/codecombin.cpp:304-352 | tells what the next child is, or that the element ends here |
| CodeReader.LoadCompound | common/codecombin.cpp:261-354 | the recursive reader reads what the grammar says and stops where it says |
| CodeReader.LoadFromFile | common/codecombin.cpp:407-426 | reading a file is the grammar applied to its characters |
| CodeRoundTrip.ChildrenBack | common/codecombin.cpp:261-354 | printed children are read back whatever follows them, up to their closing marker |
| CodeRoundTrip.LoadSaved | common/codecombin.cpp:549-579 | for every well-formed document that ends in a text: loading what was saved gives the document back, with exactly one blank more at the first text of every named section |
| CodeRoundTrip.LoadSavedAny | common/codecombin.cpp:549-579 | the same for any end; behind a section that ends the document a null text is added |
| CodeMarkers.PrintedSection | common/codecombin.cpp:549-579 | a section in print, word by word |
| CodeMarkers.WordTellsKind | common/codecombin.cpp:318-352 | behind the marker and UserCode a user section is read, behind AutoGenCode a generated one, with the name and the children that were printed |
| CodeMarkers.WordEnds | common/codecombin.cpp:55-88 | the section word may end in a blank, a tab, a comma or a semicolon |
| CodeMarkers.WordBehindBlanks | common/codecombin.cpp:61-68 | blanks and tabs in front of it are passed over |
| CodeMarkers.WordBehindEndChar | common/codecombin.cpp:61-68 | an end character in front of it is lost |
| CodeMarkers.OtherWord | common/codecombin.cpp:318-331 | behind any other word nothing can be read |
| CodeMarkers.UnreadableIsLeftOut | common/codecombin.cpp:318-352 | a section with an unknown word inside is left out, and reading goes on behind that word |
| CodeMarkers.NameInQuotes | common/codecombin.cpp:275-297 | a name stands between two single or two double quotes and is cut behind 255 characters |
| CodeMarkers.NameReadExactlyWhen | common/codecombin.cpp:275-297 | a printed name is read back if and only if it has at most 254 characters |
| CodeMarkers.EmptyName | common/codecombin.cpp:291-296 | an empty name is none |
| CodeMarkers.UnclosedName | common/codecombin.cpp:283-290 | a name that is not closed reaches to the end of the file |
| CodeMarkers.WordAtEnd | common/codecombin.cpp:298-302 | a word that ends the file is pushed back and the file goes on |
| CodeMarkers.LastLine | common/codecombin.cpp:111-161 | a last line without a newline gets the end character |
| CodeMarkers.LineEnds | common/codecombin.cpp:111-161 | a text ends in front of a marker behind a newline or a carriage return |
| CodeMarkers.PrintedDisabled | common/codecombin.cpp:588-618 | a disabled section, word by word |
| CodeFirstWord.HeaderKeepsExactlyWhen | common/codecombin.cpp:261-302 | whatever follows, the header reader leaves an unnamed element alone if and only if no word of its first line ends inside the word buffer and the line is not id |
| CodeFirstWord.ReadBackExactlyWhen | common/codecombin.cpp:261-354 | an otherwise well-formed document is read back if and only if its first text keeps its first word in that sense |
| CodeFirstWord.FirstWordLost | common/codecombin.cpp:261-354 | if it does not, the document is not read back, whatever sections follow and wherever the reader goes on |
| CodeFirstWord.ChildrenTake | common/codecombin.cpp:261-354 | from any characters the reader makes no more complete texts than there are line starts at a marker or the end, and a first text no longer than what is in front of the first of them, or it leaves one unused |
| CodeFirstWord.PrintedUses | common/codecombin.cpp:549-579 | a printed well-formed list has no more such places than it has texts and names with some inside |
| CodeFirstWord.OneTextLoads | common/codecombin.cpp:261-312 | a file of one text is read back if and only if its first word is kept |
| CodeFirstWord.HeaderLoses | common/codecombin.cpp:261-312 | otherwise the header reader loses at least one character, whatever follows |
| CodeFirstWord.LeadingWordLosesBlank | common/codecombin.cpp:261-312 | a concrete first line that loses its blank |
| CodeFiles.CombineStaysGood | common/codecombin.cpp:502-547 | merging two well-formed documents gives one that is read back, and a well-formed one if and only if no new section goes to the end, which the names of both documents tell beforehand |
| CodeFiles.MergeGoes | common/codecombin.cpp:502-547 | after every step of the merge: the list is readable, and it ends in a text, with the merge position at the end or not, as the names tell |
| CodeFiles.CombinedLoads | common/codecombin.cpp:657-695 | what a merged document is read as: itself, with one blank more per named section, and with a null text more exactly when a new section ended it |
| CodeFiles.CodeCombinFiles | common/codecombin.cpp:657-695 | loads both files, merges and writes the target; a target that cannot be loaded becomes the source, a source that cannot be loaded changes nothing |
| CodeFiles.NewTarget | common/codecombin.cpp:668-685 | a target that is not there or cannot be read becomes the source; without a source nothing is written |
| CodeFiles.WrittenNameReads | common/codecombin.cpp:549-579 | the name that a document was given is written where it is read |
| CodeFiles.RunsWriteDocuments | common/codecombin.cpp:657-695 | after any number of runs of one source file over a target, the target file holds the printed document of the iterated merges and is read back; it is well-formed again if and only if the first run puts no section at its end |
| CodeFiles.RunsKeepUserCode | common/codecombin.cpp:657-695 | for all documents, and so for the files of RunsWriteDocuments: after any number of runs all user code of the target, that in its generated sections too, and the order of both are what they were, written and read as often |
| CodeFiles.BlanksGather | common/codecombin.cpp:657-695 | after k runs the first text of a named user section has k blanks more and is otherwise the same |
| CodeFiles.LoadedStaysGood | common/codecombin.cpp:549-579 | a well-formed document is read as a well-formed one |
| ImageList.LookLoads | imgeditor/imageview.cpp:400-437 | one look loads the next default image, and a view whose look finds no further item has all its images |
| ImageList.OneLook | imgeditor/imageview.cpp:413-424 | one look gives an image to exactly one item, the first at or behind the position that needs one, and the position goes right behind it; without one nothing changes but the position, which goes to the end |
| ImageList.KeptDistinct | imgeditor/imageview.cpp:400-437 | a pass leaves no view twice on the list |
| ImageList.KeptExactly | imgeditor/imageview.cpp:396-411 | a view stays on the list if and only if its position was in front of its end |
| ImageList.KeptInOrder | imgeditor/imageview.cpp:396-411 | the views that stay keep their order |
| ImageList.KeptPositioned | imgeditor/imageview.cpp:400-437 | a pass leaves only views with a position on the list |
| ImageList.Waiting.SyncLoadImages | imgeditor/imageview.cpp:366-381 | a view is put in front and posted once unless it is on the list already; either way it starts anew |
| ImageList.Waiting.LoadOne | imgeditor/imageview.cpp:413-424 | a look at one view; at most one of its items gets an image |
| ImageList.Waiting.Turn | imgeditor/imageview.cpp:400-437 | what the pass does at one place of the list: the view leaves, and the place stays, or it has a look, and the place moves on |
| ImageList.Waiting.Pass | imgeditor/imageview.cpp:383-437 | a pass of the worker removes the finished views and looks once at each other; at most one item of each view gets an image |
| ImageLoader.InitInv | imgeditor/imageview.cpp:383-400 | the invariant holds at the start |
| ImageLoader.StepInv | imgeditor/imageview.cpp:366-437 | every step of any caller or of the worker keeps mutual exclusion, the linked list, the cursor and the wake-up invariant |
| ImageLoader.RunInv | imgeditor/imageview.cpp:366-437 | so it holds in every state of every interleaving |
| ImageLoader.RunListsExactlyPositioned | imgeditor/imageview.cpp:366-437 | in every reachable state the list is acyclic without duplicates, and a view is linked exactly when its index is not negative |
| ImageLoader.RunNeverLosesWakeup | imgeditor/imageview.cpp:366-400 | the worker is never blocked on a zero semaphore with a view listed and no post to come |
| ImageLoader.LeavesWithAllImages | imgeditor/imageview.cpp:383-437 | in every interleaving, a view that the worker takes off the list has the images of all its items |
| ImageLoader.StepLoaded | imgeditor/imageview.cpp:366-437 | every step of any thread keeps the images in front of the position of each listed view |
| ImageLoader.StepLoadsOne | imgeditor/imageview.cpp:413-424 | a step of the worker gives an image to at most one item of at most one view |
| ImageLoader.LinkingRestarts | imgeditor/imageview.cpp:366-381 | behind the search of a caller its view is on the list and starts over, and only a new one is in front |
| ImageLoader.SemaphoreMoves | imgeditor/imageview.cpp:376-391 | the worker waits exactly when it found the list empty; a wait takes one post, and only a caller that linked a view posts |
| ImageLoader.WorkerFalls | imgeditor/imageview.cpp:383-437 | with something listed, every worker step lowers a rank made of the remaining items, the listed views and the place of the worker |
| ImageLoader.WorkerCanStep | imgeditor/imageview.cpp:383-437 | with something listed and no caller inside, the worker has a step |
| ImageLoader.ListIsEmptied | imgeditor/imageview.cpp:383-437 | once the callers stop the list is empty within as many worker steps as that rank |
| IdRange.WrapSearchFinds | common/reseditor.cpp:718-736 | the search behind the last range finds one if and only if a range whose counter exceeds its size comes before one with room |
| IdRange.NextIdTakesNext | common/reseditor.cpp:701-750 | a call takes the first id still to come; when there is none it returns -1 and starts over if and only if no range that counts more than it holds comes before one with room |
| IdRange.CallsTakeRest | common/reseditor.cpp:701-750 | from any cursor the calls return all ids still to come, and then -1 under that condition exactly |
| IdRange.CallsEnumerate | common/reseditor.cpp:701-750 | from the start the calls return every id of every range once and in order, and then -1, back at the start, under that condition exactly |
| IdRange.IdsAreTheIds | common/reseditor.cpp:701-750 | the enumerated ids are exactly the ids above a minimum up to the maximum, with the type above them, in increasing order |
| IdRange.FullIdHalves | common/reseditor.cpp:747 | a full id has the type in its upper and the id in its lower half |
| IdManager.IDRangeManager.constructor | common/reseditor.cpp:508-522 | no ranges, and the enumeration at its start |
| IdManager.IDRangeManager.NextId | common/reseditor.cpp:694-750 | the cursor code is the enumeration step, whoever owns the ranges; the walk at the end never leaves the list |
| IdOwners.OnlyOwnIds | common/reseditor.cpp:694-750 | with several owners: all calls together give an owner only ids of its own ranges if and only if these are the last of the list |
| IdOwners.RunsIntoForeign | common/reseditor.cpp:694-750 | otherwise enough calls lead to the first id of the range of another owner behind its block |
| IdManager.IDRangeManager.UseId | common/reseditor.cpp:655-678 | raises the counter of the range of the id, from the unset value to 1 |
| IdManager.IDRangeManager.UnuseId | common/reseditor.cpp:680-692 | lowers the counter of the range of the id, from 0 to 65534 |
| IdLinks.IDRange.Extend | common/reseditor.cpp:468-505 | looks at the neighbours it is linked with, changes the bounds exactly when the tests let it, and tells whether a bound was given |
| IdLinks.RangeList.ExtendRange | common/reseditor.cpp:468-505 | in a well-linked list the tests are those on the neighbours in the list, and the links stay |
| IdLinks.IDRangeOwner.AddIDRange | common/reseditor.cpp:434-456 | a range goes to the front of the list of its owner, linked in both directions |
| IdLinks.RangeList.AddIDRange | common/reseditor.cpp:752-859 | a range that lands at the tail is merged, moved up or appended; the list of the manager and that of the owner stay well linked, and a new range is the last of the one and the first of the other |
| IdLinks.Add | common/reseditor.cpp:752-859 | with all managers and owners looking on: every list stays well linked, every range is in the list of its manager and in that of its owner, and no other list changes |
| IdLinks.OwnersListTheirRanges | common/reseditor.cpp:434-456 | then the list of an owner is exactly the ranges of all managers that are its own, the newest first |
| IdAdd.AddsLast | common/reseditor.cpp:752-859 | at the tail the walk for the place ends in the tail code |
| IdAdd.OrderIsKept | common/reseditor.cpp:752-859 | adding anywhere keeps the list in order if and only if the range does not belong between the first two, or joins the second |
| IdAdd.AddIsRight | common/reseditor.cpp:752-859 | a range that overlaps none is added right, in order and with exactly its ids, if and only if its neighbours suit it: as second it joins the one behind, further on it does not join both, it touches no range of another owner in front unless it joins the one behind, and a join at the head does not begin at 0 |
| IdAdd.LosesRange | common/reseditor.cpp:793-806 | joined on both sides, the range behind is lost or the code reads behind the last range |
| IdLinks.IDRangeOwnerManager.OwnerOf | mainframe/mainframe.cpp:1615-1617 | the owner of the name, made if there was none; all lists stay as they are |
| IdLinks.IDRangeOwnerManager.LoadOne | mainframe/mainframe.cpp:1608-1622 | one saved range: ranges, links and owner lists afterwards |
| IdLinks.IDRangeOwnerManager.LoadIDRanges | mainframe/mainframe.cpp:1588-1632 | loading the saved ranges of a manager one by one: the list of ranges is the rebuilt one, its links and manager fields are right, and every list of every owner has exactly its ranges, the newest first |
| IdReload.ExtendKeepsSorted | common/reseditor.cpp:468-505 | extend never takes the list out of order, and goes ahead if and only if the outcome is in order |
| IdReload.ExtendedSays | common/reseditor.cpp:468-505 | the positive bounds are taken, owner and counter stay, and a change marks the range as new |
| IdReload.AddLastKeeps | common/reseditor.cpp:836-859 | adding at the tail keeps the list sorted and disjoint and the minimum and owner of every range before |
| IdReload.AddLastHolds | common/reseditor.cpp:836-859 | a range added at the tail, not beginning below the last one, adds exactly its ids, except the first id after a range of another owner that it is pushed behind |
| IdReload.ReloadRebuilds | mainframe/mainframe.cpp:1588-1663 | saving and loading rebuilds the same bounds and owners in the same order, each range new and without a count, if and only if no two neighbours touch |
| IdFree.ExcludeIDRange | common/reseditor.cpp:593-641 | the loop with its erasures and its out-of-order insertion is the recursive removal |
| IdFree.GetFreeIDRanges | common/reseditor.cpp:643-652 | removes all ranges one by one from the limit interval |
| IdFree.ExcludeNothing | common/reseditor.cpp:593-602 | bounds in the wrong order take nothing out |
| IdFree.ExcludeBelowTop | common/reseditor.cpp:593-641 | what one removal does when the range ends inside the first interval |
| IdFree.FreeBelow | common/reseditor.cpp:593-652 | for ranges that all end below the upper limit the intervals are disjoint, from the top down, and hold exactly the ids that are left |
| IdFree.FreeAbove | common/reseditor.cpp:593-652 | from the first range on that ends at the upper limit or above, every range stretches what is left up to its own beginning |
| IdFree.FreeIsRight | common/reseditor.cpp:593-652 | for any sorted ranges and limits: the list is right if and only if every range ends below the upper limit, or those that do leave no id below their end and the next one begins there, or is the last one and begins within the limits |
| IdSearch.NewIdIsFirstFree | common/reseditor.cpp:350-373 | newResId finds the first id still to come that no resource has, or starts over when all of those are taken, if and only if there is such an id or the enumeration ends |
| IdSearch.SecondSearchFinds | common/reseditor.cpp:350-373 | after a failure the next search covers every range, so it fails only when all ids are taken |
| IdSearch.FoundIsFresh | common/reseditor.cpp:350-373 | whatever the counters and the owners say, an id that is found is one of the ranges and not in the map |
| IdSearch.FewIds | common/reseditor.cpp:358-366 | there are never more ids than the loop may draw |
| IdCounters.RecountAdds | include/reseditor.h:466-487 | a new id adds one to the recount of its range and of no other |
| IdCounters.CountersTurn | include/resenv.h:283-284 | down takes back up; the unset counter goes up to 1, and 0 goes down to 65534 |
| IdCounters.InWindow | include/reseditor.h:466-487 | what is counted for a range are the keys of its type whose lower half it holds |
| IdCounters.UseAgrees | common/reseditor.cpp:666-678 | counting a new id keeps every counter equal to the recount, 65535 meaning unset |
| IdCounters.UnuseAgrees | common/reseditor.cpp:680-692 | uncounting an id in use keeps every counter equal to the recount |
| IdCounters.UseTwiceDrifts | common/reseditor.cpp:113-145 | counting an id in use again puts a counter out of step exactly when a range holds the id |
| IdCounters.MoveAbsentDrifts | include/reseditor.h:337-364 | renumbering an id that is not in use leaves the counters in step if and only if both ids belong to the same range or to none |
| ResourceEditor.ResEditor.LookupsAgree | include/reseditor.h:406-419 | idToName and nameToId are inverse to each other |
| ResourceEditor.ResEditor.NamesAreUnique | include/reseditor.h:320-335 | no two ids have the same name |
| ResourceEditor.ResEditor.NewResId | common/reseditor.cpp:350-373 | the drawing loop, at most 65535 times, is the search; what it returns is not in the map |
| ResourceEditor.ResEditor.CreateRes | common/reseditor.cpp:113-145 | the whole new state; with a given id the maps stay consistent if and only if the id and name fit, and the counters agree if and only if the id is new or in no range; with an id of its own everything stays in step |
| ResourceEditor.ResEditor.EnterAndCount | common/reseditor.cpp:128-145 | both maps and the counter, with the exact conditions under which they stay in step |
| ResourceEditor.ResEditor.Enter | common/reseditor.cpp:131-143 | entering a resource into both maps keeps them consistent if and only if it fits |
| ResourceEditor.ResEditor.SetResName | include/reseditor.h:320-335 | renames if and only if there is such a resource and the name is another one, not in use, and made of a letter and then letters, digits and underscores; both maps follow |
| ResourceEditor.CheckIDName | common/reseditor.cpp:402-413 | the loop over the characters of a name |
| ResourceEditor.ValidExactlyWhen | common/reseditor.cpp:402-413 | a name is accepted if and only if its characters are in the sets spelled out: 52 letters, ten digits, the underscore, and a letter in front |
| ResourceEditor.NamesJoin | common/reseditor.cpp:402-413 | accepted names joined by an underscore, or with a digit behind, are accepted |
| ResourceEditor.NamesRefused | common/reseditor.cpp:402-413 | a name with a digit or an underscore in front, or with some other character, is refused |
| ResourceEditor.ResEditor.SetResId | include/reseditor.h:337-364 | renumbers a resource in use; the counters agree afterwards if and only if it was in use, an early test failed, or both ids count in the same range |
| ResourceEditor.ResEditor.MoveRes | include/reseditor.h:337-364 | a resource goes from its id to a free one, and both maps follow |
| ResourceEditor.ResEditor.RemoveRes | include/reseditor.h:392-404 | removes a resource that nothing uses from both maps and from its counter |
| ResourceEditor.ResEditor.UpdateIDRangeManager | include/reseditor.h:466-487 | recounts exactly the new ranges; if the others agreed, all counters agree afterwards |
| ResourceEditor.ResEditor.Perform | include/reseditor.h:320-404 | any one proper edit keeps maps and counters in step |
| ResourceEditor.ResEditor.Run | include/reseditor.h:320-404 | so does any run of edits, up to the first that is not proper |
| GridSizes.RecalcaUnits | mgfc/gridlayout.c:29-76 | the two loops in place give the distribution, stale sizes included |
| GridSizes.TakeExplicit | mgfc/gridlayout.c:39-59 | the first loop: what is left and how many units are automatic |
| GridSizes.ShareOut | mgfc/gridlayout.c:64-75 | the second loop gives every automatic unit its share |
| GridSizes.GetPosFromUnit | mgfc/gridlayout.c:391-400 | the sizes of the units before |
| GridSizes.ExplicitFits | mgfc/gridlayout.c:39-59 | units with an explicit size never take more than the width, whatever they ask for |
| GridSizes.SharesFit | mgfc/gridlayout.c:29-76 | if something is left, all units fit, the automatic ones are equal and less is left over than there are automatic units |
| GridSizes.FitsExactlyWhen | mgfc/gridlayout.c:61-62 | all units fit if and only if the explicit units ask for less than the width or no automatic unit had a size before |
| GridWalk.StaleSizeOverflows | mgfc/gridlayout.c:61-62 | one column of two set to 60 at width 110, then narrowed to 50 and widened to 60: the columns come out as 60 and 50 |
| GridSizes.RecalcTwice | mgfc/gridlayout.c:29-76 | distributing the same width again changes nothing |
| GridSizes.ExplicitSizeIs | mgfc/gridlayout.c:47-58 | a unit of pixels asks for its size, a splitter for 4, any other unit for its percentage of the width rounded towards zero, each in 16 bits; it gets that while so much is left, and then exactly the rest |
| GridSizes.PercentageIs | mgfc/gridlayout.c:53-58 | a percentage that is left gets its part of the width, rounded down |
| GridSizes.AutoSizeIs | mgfc/gridlayout.c:61-75 | a unit without a size gets its share of what the others leave, rounded down, or keeps its size if they leave nothing |
| GridSizes.OnlySizesChange | mgfc/gridlayout.c:29-76 | kinds and wanted sizes stay |
| GridLayout.WalkDealsOnce | mgfc/gridlayout.c:323-359 | the one-pass walk deals once with every cell that is not a splitter, in order, with the rectangle of the direct formula |
| GridLayout.CellsAreDisjoint | mgfc/gridlayout.c:402-430 | two cells never share a point |
| GridLayout.DealtExactlyWhen | mgfc/gridlayout.c:323-359 | a cell is dealt with if and only if neither its column nor its row is a splitter |
| GridLayout.CellsTile | mgfc/gridlayout.c:402-430 | the cells lie edge to edge from the corner of the grid, as wide and high as the sizes of their units, or an even share of the grid |
| GridLayout.GetIdxByPos | mgfc/gridlayout.c:183-192 | the loop over running sizes |
| GridLayout.IdxIsUnit | mgfc/gridlayout.c:183-192 | the index is k if and only if the position is behind the beginning of unit k and not behind its end |
| GridLayout.HitIsInverse | mgfc/gridlayout.c:194-206 | with explicit sizes a point hits a cell if and only if it is in the rectangle, left < x <= right and top < y <= bottom |
| GridLayout.EvenHit | mgfc/gridlayout.c:194-206 | without sizes the bounds are the other way round, and the first unit also takes points up to one unit before the grid |
| GridWalk.GridLayout.constructor | mgfc/gridlayout.c:78-107 | a grid without units, of no size |
| GridWalk.GridLayout.GetCellRect | mgfc/gridlayout.c:402-430 | the rectangle, or nothing for a cell outside the grid |
| GridWalk.GridLayout.GetRowColByPos | mgfc/gridlayout.c:194-206 | row and column of a point, and whether it is in the grid |
| GridWalk.GridLayout.DealCells | mgfc/gridlayout.c:323-359 | the walk with running edges makes the calls of the direct formula |
| GridWalk.GridLayout.SetRect | mgfc/gridlayout.c:473-499 | moves, distributes and walks; skipping the distribution for an unchanged size loses nothing |
| GridWalk.GridLayout.SetColWidth | mgfc/gridlayout.c:140-148 | sets one unit, makes the units if there are none, and distributes the width anew |
| GridWalk.GridLayout.SetRowHeight | mgfc/gridlayout.c:129-138 | the same for a row |
| GridWalk.SetUnitSays | mgfc/gridlayout.c:109-127 | the unit has the kind, or 0 for one that is none, and the size in 14 bits; the kinds and wanted sizes of the others stay |
| GridWalk.MadeUnits | mgfc/gridlayout.c:114-117 | units that are made are of pixels and without a size |
| PackageBytes.SwitchTurnsBytes | include/stream.h:136-141 | the byte switch is the change of byte order |
| PackageBytes.ValueOfWord | include/stream.h:189-194 | a number is read back from its four bytes in the same order |
| PackageBytes.BytesOfWord | include/stream.h:159-194 | the lowest byte comes first in the one order and last in the other |
| PackageBytes.BinStream.Save32 | include/stream.h:159-194 | a number goes to the file in the byte order of the stream, whatever that of the machine |
| PackageBytes.FileStorage.Write | include/stream.h:279-284 | writing at a position replaces and extends, and leaves the rest |
| PackageStrings.SaveString | mainframe/mainframe.cpp:991-1018 | an item with the present offset, and the string up to its first NUL; without a NUL inside, the string with three to six NULs |
| PackageStrings.CollectStrings | mainframe/mainframe.cpp:1020-1045 | the items and the text of all strings, the name of the default renderer first |
| PackageStrings.WriteStringResource | mainframe/mainframe.cpp:1020-1061 | appends the section of the pool; an empty pool appends nothing |
| PackageStrings.CountSays | mainframe/mainframe.cpp:1046-1048 | the recorded size is the length of the section, the recorded count the number of strings |
| PackageStrings.SectionLayout | tools/res2c/resource.h:253-260 | size, count and items lie at 0, 4 and 8 of the section, twelve bytes each item: id, 0 and the offset at which the string lies |
| PackageStrings.RendererIsFirst | mainframe/mainframe.cpp:1033-1041 | the name of the default renderer is the string of id 0x10001, and every pool id has its string |
| PackageStrings.CStringCuts | mainframe/mainframe.cpp:991-1018 | what is kept of a string has no NUL and ends at the first one |
| PackageStrings.ItemsSay | mainframe/mainframe.cpp:1050-1055 | each item has its id and the offset of its string |
| PackageStrings.StringAtOffset | mainframe/mainframe.cpp:991-1018 | at each recorded offset is the string, three NULs follow, the next one comes after those, and offsets are multiples of four |
| PackageStrings.BinarySearchIdItem | tools/res2c/resource.c:216-249 | the halving loop is the recursive search |
| PackageStrings.SearchFinds | tools/res2c/resource.c:216-249 | with ascending ids the item is found if and only if it has the id |
| PackageStrings.StringsReadBack | mainframe/mainframe.cpp:1020-1061 | for every pool of C strings by ascending ids and every id: reading the written section gives what the pool has, or nothing |
| PackageWriter.SaveTypeItem | mainframe/mainframe.cpp:1072-1084 | records the end of the file in the type table and returns to the end |
| PackageWriter.PatchKeeps | mainframe/mainframe.cpp:1072-1084 | patching the next type item keeps the header, the items before and all sections |
| PackageWriter.SavePart | mainframe/mainframe.cpp:1151-1162 | one turn of the loop: patched item, then the section |
| PackageWriter.SaveParts | mainframe/mainframe.cpp:1151-1162 | the sections of all editors that have one, each with its type item |
| PackageWriter.SavePackage | mainframe/mainframe.cpp:1131-1168 | the file is header, full type table and sections |
| PackageWriter.SectionsAre | mainframe/mainframe.cpp:1151-1165 | the sections are those of the editors that have a type, in their order, and then the strings |
| PackageWriter.HeaderLayout | tools/res2c/resource.h:121-139 | the magic number of the library is at 0, the labels at 4, 8, 12 and 28 and the number of sections at 44 |
| PackageWriter.SectionsAreFound | mainframe/mainframe.cpp:1072-1084 | the type item at 48 and every twelve bytes tells the type and the true start of its section, and the section is there unharmed |
| PackageWriter.PackageReadsBack | tools/res2c/resource.c:419-496 | for any sections of editors that do not claim the string type and every id whose type is not text: the library accepts the file, reaches the string section through the type table and finds the string that was put into the pool, and nothing for other ids |
| PackageWriter.ReadsBackExactlyWhen | tools/res2c/resource.c:476-496 | all those ids are read back if and only if the pool is not empty |
| PackageWriter.EmptyPoolLosesRenderer | mainframe/mainframe.cpp:1020-1061 | with an empty pool the name of the default renderer is not found |

## Left out

- Windows, dialogs, menus, painting, sockets, dynamic loading, the licence dongle and the Lua bridge: I/O and foreign calls.
- XML: ranges and trees are taken as already parsed.
- The backward search of mgfc/mgctrl.cpp: its table is not the mirror image of the forward one.
- UndoRing.UndoRedoObserver.EmptyRedo: requires that there is nothing to free or that the redo cursor is not zero, because otherwise the loop does not return; UndoHistory.EmptyRedoStops proves this condition exact.
- The command that resets all properties of an instance, commands of other kinds, and the destructor of the observer.
- Attributes of fields, reference lists and use counts of referenced resources; memo values equal the values they stand for.
- CodeDocument.CompoundElement.InsertChild: children are a sequence of values, so the search for the predecessor in the linked list and the aliasing of elements are not captured.
- CodeDocument.Clone: requires that every section has a child where the copy loop reads one, because the source reads a child that an empty section does not have.
- CodeFiles.CodeCombinFiles: requires the same of the sections that it copies; opening and closing files are parameters, None being a file that cannot be opened.
- Pushing back several characters goes beyond the one that section 7.21.7.10 of ISO/IEC 9899:2011 guarantees; it is modelled as moving the position back. NUL characters in code files.
- Locking a view from the user interface as two separate steps, and destroying a view while it is listed; a guarded operation is one step.
- ImageLoader.ListIsEmptied: assumes that the worker goes on taking steps, as the scheduler is not part of this model.
- IdLinks.RangeList.AddIDRange: requires that the range lands at the tail, as all ranges of a saved list do; the other branches are modelled on values (module IdAdd), because they leave prev or manager fields unset.
- IdManager: its list of ranges is a sequence with an index for the current range; the links of such a list are modelled in IdLinks.
- ResourceEditor.ResEditor.NewResId: the offer of further ranges is taken as declined, since it is a dialog.
- ResourceEditor.ResEditor: one range manager, as in the image editor; the text editor chooses between two by name. Deleting references to a removed resource in other editors.
- GridSizes.RecalcaUnits: the product of a percentage and the width is not cut to 32 bits, which matters from widths of 262144 on.
- Splitter dragging, contents of cells and nested grids: the handler of the walk is represented by the list of its calls.
- PackageWriter.SavePart: an editor's section is a sequence of bytes that it appends; editors that go back inside their own section are not modelled.
- PackageWriter.PackageReadsBack: requires sizes below 2^32, strings without a NUL, and pool ids and queried ids that are not of the text type, since the library looks a text id up in the text section of a locale; for an empty pool the library reads behind the end of the file, which counts as finding nothing. Text resources with locales, sections in separate files, and the library's search for a type that no section has.
- PackageStrings.WriteStringResource: requires strings without a NUL; PackageStrings.SaveString states what happens to one that has a NUL.
- The reference-counted string pool and the reuse of its ids; the pool is taken as a list by ascending ids.
- The clipboard, path expansion, hot keys, version comparison and value editors.
