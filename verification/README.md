# Field-data automation scripts: a verified model

This project models in Dafny the decision logic of a set of field-data automation scripts for an airborne hyperspectral survey. Every operating-system and file-system query is replaced by a snapshot that is passed in. Every loop that polls or walks the disk becomes a pure function over sequences of names, or one pass per call.

There are two groups of scripts.

**The window-placement supervisor**, in three variants. Each launches several instances of a batch-processing tool and keeps its windows under control:

- `auto_new_desktop_per_instance.py` gives each instance a virtual desktop of its own. Its enforcement loop moves a stray window back to that desktop.
- `new_desktop_per_instance.py` is an older variant of the same loop.
- `keep_track_of_batch_instances.py` keeps one instance visible at a time. It minimizes and restores windows with a small state machine keyed on `(hwnd, pid)`.

Modules:

- `ProcessTree`: the tracked-pid closure (`gather_tracked_pids`) and the ancestor walk (`find_root_pid`).
- `Placement`: one enforcement pass and its move decision.
- `Provisioning`: `ensure_desktops` and `start_instances`.
- `Launcher`: the launch wait, the desktop-switch fallback, registration, and the sequential `main`.
- `SingleVisible`: the one-visible-instance supervisor.

**The data-management scripts**:

- `update_excel_table.py` gives output files version names, finds the latest version, sorts naturally, and names spreadsheet columns. It also parses folder timestamps, pairs each VNIR folder with its nearest SWIR folder, extracts flight names and indexes KML files. Modules: `VersionedFiles`, `ExcelColumns`, `NaturalSort`, `FolderTimestamps` and `FlightNames`.
- `export_gps_files_per_flight.py` chooses the `.T04` GPS files that cover a flight. Module: `GpsExport`.
- `move_raw_data.py`, `move_Rf_Data.py` and `split_flight_into_flightlines.py` sort files into sibling or group folders. Module: `Organisers`.
- `moving_txt_files.py`, `copy_contents_same_folder_name.py` and `Copy_SBET.py` pair folders by name and copy or move their contents. Modules: `FolderSync` and `SbetSync`, over the folder model in `FolderOps`.
- `auto_run_spectralview.py` and `auto_run_spectralview_many_folders.py` drive a processing GUI across virtual desktops. Module: `SpectralView`.

Shared string helpers live in `Common`. They cover Python's `startswith`, `endswith`, `in`, ASCII `lower`/`upper`, `isdigit`, `split` and `os.path.splitext`. A generic insertion sort and Python's string order live in `Sorting`.

The operating system is represented as follows:

- A process snapshot is a map from each live pid to its parent pid.
- A window list is a sequence of records.
- A folder is a map from entry name to contents.
- A directory walk is the sequence of `(name, path)` pairs it yields.
- A listing is a sequence of names.
- Keystrokes are sequences of `Key` values. The desktop they land on is computed by clamping at the first and last desktop.

## Model

| member | source | states |
|---|---|---|
| ProcessTree.Closure | auto_new_desktop_per_instance.py:76-79 | The recursive children of a set of live pids, with the set itself: it lies between the set and the live pids, every live child of a member is a member, and it is contained in every such closed superset (the least one). |
| ProcessTree.Tracked | auto_new_desktop_per_instance.py:71-82 | The tracked pids are the least child-closed set of live pids containing every root that is still alive. |
| ProcessTree.TrackedIffChain | auto_new_desktop_per_instance.py:71-82 | A pid is tracked exactly when some finite chain of parent links from it reaches a root. |
| ProcessTree.TrackedIsUnionOfRoots | auto_new_desktop_per_instance.py:73-79 | The tracked set is the union, over the roots, of each root's own tracked tree. |
| ProcessTree.DeadRootAddsNothing | auto_new_desktop_per_instance.py:74 | A root whose pid no longer exists adds no pid and raises nothing. |
| ProcessTree.FindRoot | auto_new_desktop_per_instance.py:84-94 | A pid that does not exist has no root; a pid that is itself a root is its own; any root found is a live member of the root set. |
| ProcessTree.FindRootIsNearest | auto_new_desktop_per_instance.py:89-94 | The root found is the nearest ancestor-or-self in the root set: no pid before it on the parent chain is a root. |
| ProcessTree.FindRootNoneMeansPidZero | auto_new_desktop_per_instance.py:85-93 | No root is returned only for a missing pid, or when the parent chain reaches a process whose parent is 0 without meeting a root. |
| ProcessTree.TrackedPidsResolve | new_desktop_per_instance.py:91-105 | On a snapshot where pid 0 is its own parent and not a root, every tracked pid's walk finds a root within as many steps as there are live processes. |
| ProcessTree.DivergenceNeedsCycle | auto_new_desktop_per_instance.py:89-94 | The walk runs past one step per live process only when the parent chain revisits a pid, that is, only on a cycle. |
| Placement.Decide | auto_new_desktop_per_instance.py:107-119 | A window is only ever sent to a desktop that exists and differs from the one it is on. |
| Placement.MoveIssuedOnlyWhenQualified | auto_new_desktop_per_instance.py:107-119 | Every move of a pass is for a window whose pid is tracked, whose title is treated, whose root is found with desired desktop t, and which is not already on t; the move targets t. |
| Placement.CompletedMeansNoFailure | auto_new_desktop_per_instance.py:101-119 | A pass that completes met no window whose handling raises or hangs. |
| Placement.AllLeaveMeansQuiet | auto_new_desktop_per_instance.py:113-117 | A pass over windows that all stay put completes and issues no move. |
| Placement.SecondPassIsQuiet | auto_new_desktop_per_instance.py:116-119 | Idempotence: once a completed pass's moves have taken effect, a second pass over the same snapshot issues no move and completes. |
| Placement.OnePassConverges | auto_new_desktop_per_instance.py:115-119 | After a completed pass, every tracked treated window with a found root and desired desktop sits on that desktop. |
| Placement.PassNeverFails | auto_new_desktop_per_instance.py:112-118 | On a consistent snapshot, and when every desired desktop exists, a pass never raises and never hangs. |
| Placement.RunPassTargets | auto_new_desktop_per_instance.py:107-119 | On a completed pass over windows with distinct handles, the first move issued for a handle sends it to the desktop decided for that window, and a handle not among the windows gets no move. |
| Placement.SettleIsAppliedMoves | auto_new_desktop_per_instance.py:107-119 | On such a pass, the settled windows are exactly what carrying out the pass's own `move_window` calls gives. |
| Placement.FullTableMovesEveryStray | new_desktop_per_instance.py:131-139 | When every root has a desired desktop, a tracked treated window always has a root, is left alone exactly when it is on its target, and is moved there otherwise. |
| Provisioning.EnsureDesktops | auto_new_desktop_per_instance.py:63-69 | It returns only once a query reports at least the requested count, after creating one desktop per earlier short query. It returns that query's desktops, sorted by number in this variant and as reported in the older one. If every query falls short it is still waiting. |
| Provisioning.CreatesTheShortfall | auto_new_desktop_per_instance.py:65-68 | When each creation adds one desktop, exactly the missing number of desktops is created (none when there are enough). |
| Provisioning.StartActions | new_desktop_per_instance.py:65-76 | Exactly `count` instances are launched, and instance i is spawned right after switching to desktop i. |
| Provisioning.DesiredTable | new_desktop_per_instance.py:110-111 | The desired-desktop table's keys are exactly the launched pids, and every value is one of the desktops used. |
| Provisioning.DesiredTableOfDistinct | new_desktop_per_instance.py:111 | With distinct pids, the i-th process's pid maps to the i-th desktop's number. |
| Provisioning.NewVariantConfig | new_desktop_per_instance.py:109-111 | The older variant's root set equals its table's keys, and every desired desktop exists. |
| Provisioning.NewVariantPassesComplete | new_desktop_per_instance.py:114-139 | In the older variant every pass completes, and every tracked treated window has a root, so the direct table lookup never fails. |
| Launcher.Least | auto_new_desktop_per_instance.py:216 | The handle taken from a non-empty difference is a member of it (the smallest). |
| Launcher.FirstNew | auto_new_desktop_per_instance.py:210-217 | The first enumeration showing a window with the title that was not there before launch, or the poll limit when there is none. |
| Launcher.PollFrom | auto_new_desktop_per_instance.py:208-217 | The loop runs at most 100 polls. It takes a window exactly when one appears before the limit and before the error flag is seen, and the window is taken from that first non-empty difference. |
| Launcher.LaunchWait | auto_new_desktop_per_instance.py:208-224 | A startup error is reported exactly when the error flag is set at the final check. An accepted window was never in the pre-launch set, is non-zero, and appeared at the first poll that showed a new window. |
| Launcher.ErrorBeatsFoundWindow | auto_new_desktop_per_instance.py:219-221 | A new window found in the same poll in which the error flag is raised still ends in a startup error. |
| Launcher.TimeoutIff | auto_new_desktop_per_instance.py:222-224 | The launch times out exactly when no new window appears in 100 polls and no error is seen. |
| Launcher.FallbackSteps | auto_new_desktop_per_instance.py:241-244 | The fallback sends `idx - current` right steps, which lands on `idx` from a desktop at or before it, and sends none when that difference is not positive. |
| Launcher.AfterSwitch | auto_new_desktop_per_instance.py:238-244 | A desktop switch, direct or by right steps, always ends on an existing desktop. |
| Launcher.ProcessFolder | auto_new_desktop_per_instance.py:235-250 | The current desktop index becomes `idx` in every case. A successful launch appends the pid, adds it to the roots, and records the target desktop's number for it. A failed launch registers nothing. |
| Launcher.RunFromStops | auto_new_desktop_per_instance.py:270-271 | The folder loop stops exactly at the first failed launch, with one desktop switch per folder up to and including that one. |
| Launcher.RunAllStops | auto_new_desktop_per_instance.py:270-271 | Every folder before the stopping point launched, and the folder where the loop stopped did not. |
| Launcher.RunFromRegistry | auto_new_desktop_per_instance.py:248-250 | The registry always holds exactly the launched pids as roots, with the desired-desktop table built from them. |
| Launcher.RunAllRegisters | auto_new_desktop_per_instance.py:248-250 | After the loop the roots are exactly the launched pids, each mapped to its own folder's desktop. |
| Launcher.RunAllLaunchesOnItsDesktop | auto_new_desktop_per_instance.py:237-245 | `current_desktop_idx` starts at 0 whatever desktop the session is on. When the session starts on the first desktop, or `go()` works for the first folder, the k-th launch happens on desktop index k, whether or not the later direct switches succeed. |
| Launcher.StartedElsewhereFirstLaunchMisplaced | auto_new_desktop_per_instance.py:43 | The premise above is needed. Started on desktop 1 of 3 with `go()` failing for the first folder, no key is pressed and the first instance starts on desktop 1; the second, switched there by `go()`, starts on desktop 1 as well. |
| Launcher.Main | auto_new_desktop_per_instance.py:252-258 | An empty folder list does nothing. A run has at least one desktop per folder, sorted by number. |
| Launcher.MainFeedsACompletingEnforcer | auto_new_desktop_per_instance.py:258-271 | The roots and table that `main` builds make every enforcement pass complete. |
| SingleVisible.ToolWindows | keep_track_of_batch_instances.py:48-66 | The tool windows are exactly the visible windows with a known, tracked pid and a treated title. |
| SingleVisible.ToolWindowsAppend | keep_track_of_batch_instances.py:48-66 | The tools of an enumeration are those of its first part followed by those of the rest. So a window enumerated earlier never has its tool listed after a later one's. With `ToolWindows`' own contract on a single window, this fixes the whole list. |
| SingleVisible.ToolWindowsInOrder | keep_track_of_batch_instances.py:48-66 | The tool list keeps the enumeration order. It is the order-preserving filter of the enumerated windows, each mapped to its tool entry. |
| SingleVisible.AllWindows | keep_track_of_batch_instances.py:68-84 | Windows are grouped by their own pid (not by instance): each visible window of a tracked pid is listed under that pid, and only such windows are listed. |
| SingleVisible.AllWindowsDistinctOwners | keep_track_of_batch_instances.py:68-84 | No handle is listed under two pids. |
| SingleVisible.Choreography | keep_track_of_batch_instances.py:140-151 | Every window of every other pid ends minimized. Windows of `pid` that no other pid lists end restored. The main window is brought to the front. No other window changes. |
| SingleVisible.ChoreographyLeavesOnlyPid | keep_track_of_batch_instances.py:140-151 | Afterwards a listed window is restored exactly when it belongs to `pid`. |
| SingleVisible.HelperWindowsAreMinimized | keep_track_of_batch_instances.py:43-45 | A child helper of the instance is tracked under its own pid, so the choreography minimizes its windows too. |
| SingleVisible.Step | keep_track_of_batch_instances.py:130-174 | The reaction to one tool window. A new key is added to `seen`, its flag is recorded, and the choreography runs. A seen key going from minimized to restored runs the choreography. A seen key going from restored to minimized minimizes only that pid's windows. An unchanged flag does nothing. The recorded flag is overwritten in every case. |
| SingleVisible.RunPass | keep_track_of_batch_instances.py:130-174 | A pass reacts once per tool window and adds every key it meets to `seen`, keeping `seen` and the recorded states in step. |
| SingleVisible.PassKeepsUnmetKeys | keep_track_of_batch_instances.py:153-174 | The recorded state of a key the pass does not meet is unchanged. |
| SingleVisible.QuietPass | keep_track_of_batch_instances.py:153-174 | When every tool window is already seen with an unchanged flag, a pass does nothing and changes nothing. |
| SingleVisible.Begin | keep_track_of_batch_instances.py:28-35 | Exactly `count` instances are launched, in order; with none the script exits; supervision starts with nothing seen. |
| VersionedFiles.VersionOf | update_excel_table.py:34 | A name has a version exactly when it is `name_v<digits><ext>`, and the version is the value of those digits. |
| VersionedFiles.MaxVersion | update_excel_table.py:32-36 | The highest version among the listed versioned names, or 0 when there is none. |
| VersionedFiles.MakeUnique | update_excel_table.py:28-45 | The name chosen is `name_v(max+1)` when a version exists, `name_v2` when only the base exists, and the base otherwise. It is never a listed name. |
| VersionedFiles.BestOf | update_excel_table.py:83 | The first position holding the highest version, or none when there is no candidate. |
| VersionedFiles.FindLatest | update_excel_table.py:68-86 | No result exactly when no entry is the base (version 0) or a versioned name. Otherwise the result is a listed candidate whose version no other candidate exceeds. |
| VersionedFiles.AppendedAboveAllIsBest | update_excel_table.py:83 | A candidate above every listed version is picked once added. |
| VersionedFiles.LatestAfterUnique | update_excel_table.py:28-45 | After writing to the name the versioning picks, the newest-file search finds that file (with no `_v0` entry listed). |
| VersionedFiles.VersionZeroShadowsBase | update_excel_table.py:34-43 | A listed `_v0` name makes the versioning reuse the base name, and the search then prefers the earlier-listed `_v0` entry over the base. |
| ExcelColumns.ColName | update_excel_table.py:418-424 | Every column name is a non-empty string of letters A to Z. |
| ExcelColumns.XlColToName | update_excel_table.py:418-424 | The loop computes the bijective base-26 column name. |
| ExcelColumns.IndexOfName | update_excel_table.py:418-424 | Reading a column name back gives the index it came from. |
| ExcelColumns.NameOfIndex | update_excel_table.py:418-424 | Every letter string is the name of its index: the naming is onto. |
| ExcelColumns.ColNameInjective | update_excel_table.py:418-424 | Distinct indices get distinct names. |
| ExcelColumns.FirstColumns | update_excel_table.py:418-424 | 0 is A, 25 is Z, 26 is AA, 701 is ZZ and 702 is AAA. |
| NaturalSort.Chunks | update_excel_table.py:90 | Splitting on digit runs with a captured group always gives an odd number of pieces. |
| NaturalSort.ChunksJoin | update_excel_table.py:90 | The pieces join back to the original string. |
| NaturalSort.ChunksAlternate | update_excel_table.py:90 | Even pieces hold no digit and odd pieces are maximal digit runs; only the first and last text piece can be empty. |
| NaturalSort.NaturalKey | update_excel_table.py:90 | The key has one part per piece, a number exactly at the odd positions. |
| NaturalSort.NumbersSortByValue | update_excel_table.py:89-90 | Two names that differ only in a trailing number sort by the number's value, not by its spelling. |
| Sorting.InsertionSort | export_gps_files_per_flight.py:28 | The sorted list is a permutation of the input, ordered under any total preorder. |
| Sorting.StringOrderIsTotalPreorder | export_gps_files_per_flight.py:28 | Python's code-point string order is total and transitive. |
| Sorting.LexLeAntisymmetric | export_gps_files_per_flight.py:28 | Two strings each at most the other are equal. |
| FolderTimestamps.StampLength | update_excel_table.py:110 | The length of the longest timestamp suffix `_YYYY_MM_DD_hh_mm_ss[_f]` (with a 1 to 6 digit fraction) that ends the name, if any. |
| FolderTimestamps.ParseFolderTimestamp | update_excel_table.py:109-117 | There is no stamp exactly when no suffix matches. A stamp that is a real calendar date gives its fields, with the fraction right-padded to microseconds. Other matching stamps are reported as invalid. |
| FolderTimestamps.PaddedFraction | update_excel_table.py:116 | Padding a fraction with k zeros multiplies its value by ten to the k. |
| FolderTimestamps.ParseFormatted | update_excel_table.py:109-117 | Any valid date-time written as a suffix parses back to itself: the round trip. |
| FolderTimestamps.MicrosChronological | update_excel_table.py:180-184 | The microsecond count of a date-time increases with calendar order, so distances between stamps are those of `datetime` subtraction. |
| FolderTimestamps.MicrosInjective | update_excel_table.py:180-184 | Distinct date-times have distinct counts. |
| FolderTimestamps.VnirPrefix | update_excel_table.py:173-176 | The prefix is the shortest non-empty start of the name followed by `_` and four digits; there is none when no such position exists. |
| FolderTimestamps.FirstMin | update_excel_table.py:180-183 | The first position of the smallest distance, as `min` returns it. |
| FolderTimestamps.FindCorrespondingSwir | update_excel_table.py:165-186 | A SWIR path is returned exactly when the name has a valid stamp and some candidate of its prefix lies within the threshold; the path is the first nearest candidate's. |
| FlightNames.TakeoffPosition | update_excel_table.py:189-191 | The digits after a leading `TECK_T`, maximal, or empty exactly when the name does not start that way with a digit. |
| FlightNames.FlightStarts | update_excel_table.py:195 | The positions of every `_F<digit>` in the name, ascending. |
| FlightNames.FindFlightsIsComplete | update_excel_table.py:195 | The numbers found are the maximal digit runs after each `_F`, one per position, in order. |
| FlightNames.FlightNumbers | update_excel_table.py:194-195 | Never empty: `[""]` exactly when there is no `_F<digits>`, and otherwise each flight number in order. |
| FlightNames.DateFolderCode | update_excel_table.py:206-213 | The deepest path component that is exactly four digits, and none exactly when no component is. |
| FlightNames.MatchKml | update_excel_table.py:145 | A match gives a digit take-off number and a non-empty flight list of digits and `n` in either case, each read from its own place in the name: `tof_` and `_flt_` in either case around the take-off number, then the flight list, then `_`. |
| FlightNames.MatchKmlComplete | update_excel_table.py:145 | Every name of that shape matches, with exactly those groups. So no match means that the name has no such shape. |
| Common.Split | update_excel_table.py:156 | `str.split` on one character: at least one piece, no piece holds the separator, and the pieces joined back with it give the input. |
| FlightNames.KmlKeysAsWritten | update_excel_table.py:150-159 | The keys as the source builds them: some exactly when the name ends in `.kml` in any case and matches the pattern. |
| FlightNames.UpperCaseNSeparatorIsLost | update_excel_table.py:145-156 | For `tof_6_flt_1N2_a.kml` the source indexes the single key `("6", "1N2")`, while the corrected split gives flights 1 and 2. |
| FlightNames.KmlKeys | update_excel_table.py:150-159 | Some key exactly when the name is a matching KML file, and every key is a digit take-off and a digit-only flight number. |
| FlightNames.AddKeys | update_excel_table.py:158-159 | Each key of a file is set to its path and no other key changes. |
| FlightNames.KmlIndexLastWins | update_excel_table.py:148-159 | For the index as written (`AsWritten`, splitting on lower-case `n` only) and for the intended one alike, a key maps to the path of the last file indexed under it. |
| FlightNames.KmlIndexOnlyNamedKeys | update_excel_table.py:148-159 | Under either rule, every key of the index comes from some file whose keys name it, and maps to that file's path. |
| FlightNames.UpperCaseNFlightsNotFound | update_excel_table.py:145-159 | The index as written holds `tof_6_flt_1N2_a.kml` under exactly one key, flight `1N2`, so flights 1 and 2 of take-off 6 do not find it. The intended index holds it under exactly those two flights. |
| GpsExport.DetectHeader | export_gps_files_per_flight.py:66-80 | New format exactly when the first line holds both `Timestamp` and `Status`. Otherwise old format exactly when it holds `Gps_Raw_Date&Time`. Otherwise the file is skipped. |
| GpsExport.HourMin | export_gps_files_per_flight.py:103-104 | The HHMM number keeps the hour in its hundreds and the minute below. |
| GpsExport.HourMinOrdered | export_gps_files_per_flight.py:103-104 | Comparing HHMM numbers compares times of day. |
| Common.Filter | export_gps_files_per_flight.py:28 | The list comprehension keeps exactly the elements that pass the test, each as many times as it occurs, and never lengthens the list. |
| GpsExport.T04Files | export_gps_files_per_flight.py:28 | The listed `.T04` names, each as many times as it is listed and no other name, in sorted order: a permutation of the filtered listing. |
| GpsExport.T04Time | export_gps_files_per_flight.py:34-37 | A file has a time exactly when the four characters before its extension are all digits. |
| GpsExport.LastAtOrBefore | export_gps_files_per_flight.py:109-111 | The start file has the greatest time at or before the start, first among equals, and there is none exactly when no timed file qualifies. |
| GpsExport.FirstAtOrAfter | export_gps_files_per_flight.py:113-115 | The end file has the smallest time at or after the end, first among equals, and there is none exactly when no timed file qualifies. |
| GpsExport.SelectFiles | export_gps_files_per_flight.py:108-124 | Nothing is copied when either end file is missing, or when the start comes after the end; otherwise the range runs from the start position to the end position. |
| GpsExport.FilesToCopy | export_gps_files_per_flight.py:129-131 | The inclusive contiguous slice of the sorted list between the two positions. |
| GpsExport.NoReversalWhenAscending | export_gps_files_per_flight.py:121-124 | With file times ascending in list order and the start not after the end, the start never comes after the end. |
| GpsExport.CopiesCoverTheFlight | export_gps_files_per_flight.py:109-131 | With ascending times, every file whose time lies within the flight is copied. |
| GpsExport.CopyAll | export_gps_files_per_flight.py:138-147 | Existing destination files are never overwritten. A `copy2` that raises ends the flight's copying, since the error is caught only around the whole flight. The loop stops exactly at the first selected file that is missing from the destination and fails to copy. Under the model's atomic failure (see "## Left out"), the destination gains exactly the files before that point, with the source's contents. |
| GpsExport.CopyAllCompletes | export_gps_files_per_flight.py:138-147 | The copy runs to the end exactly when no missing selected file fails, and then every selected file is in the destination. |
| Organisers.RawCopies | move_raw_data.py:49-57 | The copy list is exactly the regular files starting with `SBET_`. |
| Organisers.RawMoves | move_raw_data.py:49-57 | The move list is exactly the regular files that neither start with `SBET_` nor contain `_rf`. |
| Organisers.PlanRaw | move_raw_data.py:29-66 | `_RAW` folders are skipped. A folder is processed only when it holds a name with `_rf` and one without. Nothing is done when both lists are empty. Otherwise the files go to the sibling `<name>_RAW`. |
| Organisers.RawPartition | move_raw_data.py:49-57 | Each entry is copied, moved, or left (a non-file, or a non-`SBET_` name with `_rf`), and never both copied and moved. |
| Organisers.RawOutputIsSkipped | move_raw_data.py:29-30 | A folder the script created is never processed again. |
| Organisers.SecondRawRunMovesNothing | move_raw_data.py:39-61 | Running the organiser again on the folder it has processed moves nothing. |
| Organisers.DescendRaw | move_raw_data.py:83 | The walk descends exactly into the subfolders that were not processed. |
| Organisers.RfMoves | move_Rf_Data.py:38-42 | The move list is exactly the regular files whose lower-cased name ends in `_rf`, `rf.hdr` or `rf.bin`. |
| Organisers.PlanRf | move_Rf_Data.py:20-51 | `_RF` folders are skipped. A folder is processed only with a reflectance name and an `_igm` name. No folder is made for an empty move list. Otherwise the files go to `<name>_RF`. |
| Organisers.RfOutputIsSkipped | move_Rf_Data.py:20-21 | A folder the script created is never processed again. |
| Organisers.SecondRfRunMovesNothing | move_Rf_Data.py:28-46 | Once its reflectance files have moved, the folder is not processed again. |
| Organisers.RfBinAloneDoesNotTrigger | move_Rf_Data.py:28-42 | An `rf.bin` file counts for moving but not for the trigger: with only `rf.bin` and `_igm` nothing happens. |
| Organisers.DescendRf | move_Rf_Data.py:62 | The walk descends exactly into the subfolders that were not processed. |
| Organisers.IsPrimary | split_flight_into_flightlines.py:23-28 | A primary product is exactly a regular file named `raw_…_igm`. |
| Organisers.IgmIsNotHdr | split_flight_into_flightlines.py:26-27 | A name ending in `_igm` never ends in `.hdr`, so that test never rejects anything. |
| Organisers.SecondToken | split_flight_into_flightlines.py:33-35 | The second `_`-separated token of a `raw_` name. |
| Organisers.FlightFolderOf | split_flight_into_flightlines.py:33-39 | `raw_<n>…` goes to `Flight_` followed by the last three characters of `n`, or all of `n` when it is shorter. |
| Organisers.OwnMoves | split_flight_into_flightlines.py:45-58 | A primary file always moves to its group folder, and its header follows exactly when it exists. |
| Organisers.FlightMoves | split_flight_into_flightlines.py:18-58 | Every primary file moves to its group folder, with its header when listed, and no other move is made. |
| FolderOps.IndexByNameLastWins | moving_txt_files.py:31-34 | In a name index a later duplicate overwrites an earlier one. |
| FolderOps.CopySkipExisting | moving_txt_files.py:68-78 | The destination gains the non-failing names; existing entries are never overwritten; new entries carry the source's contents. |
| FolderOps.CountIsNewNames | moving_txt_files.py:75-78 | Under the model's atomic failure, the copy counter equals the number of names the copy adds. |
| FolderOps.CopyOverwrite | Copy_SBET.py:81-90 | Every non-failing name is copied over, overwriting, and entries not copied keep their contents. |
| FolderOps.MoveSkipExisting | copy_contents_same_folder_name.py:47-62 | Names not in the destination and not failing move: the destination gains them, the source loses them, and nothing existing is overwritten. |
| FolderSync.SubfolderIndex | moving_txt_files.py:31-34 | The index holds every walked name, mapped to the path of its last occurrence. |
| FolderSync.RawPartner | moving_txt_files.py:41-45 | The partner of `n` is `RAW_` followed by `n`: a prefix. |
| FolderSync.SyncPairs | moving_txt_files.py:41-45 | The destination folders with a partner in the source tree are exactly those paired. |
| FolderSync.SuffixMarkerDoesNotPair | moving_txt_files.py:41-45 | Source folders named with the marker only as a suffix pair with nothing. |
| FolderSync.ExtensionIgnoresCase | moving_txt_files.py:63-66 | The `.txt` test ignores case. |
| FolderSync.SyncPair | moving_txt_files.py:54-78 | An empty source copies nothing. Otherwise, under the model's atomic failure, the destination gains exactly the target files that copy without error, existing files are skipped, and the count is the number of copies that succeeded. |
| FolderSync.NoTargetNoCopy | moving_txt_files.py:63-78 | A source without a target file copies and counts nothing. |
| FolderSync.MergePairs | copy_contents_same_folder_name.py:30-42 | The merged pairs are exactly A's directories that have a same-name directory in B. |
| FolderSync.FoundMatch | copy_contents_same_folder_name.py:30-42 | `found_match` is true exactly when some pair exists. |
| FolderSync.MergePair | copy_contents_same_folder_name.py:47-62 | Items are moved unless A already holds the name or the move fails. A failure does not stop the rest. |
| FolderSync.MergeWithoutFailures | copy_contents_same_folder_name.py:47-60 | When every move succeeds, A ends with the union of both name sets and B keeps exactly the clashing names. |
| SbetSync.SearchFrom | Copy_SBET.py:25 | The leftmost position where the group-key pattern matches, and none when it matches nowhere. |
| SbetSync.KeyOf | Copy_SBET.py:25-33 | A directory has a key exactly when the pattern matches somewhere in its name, ignoring case. |
| SbetSync.KeyIgnoresCase | Copy_SBET.py:25-33 | Upper- or lower-casing a name does not change its key. |
| SbetSync.KeyShape | Copy_SBET.py:25-33 | A key starts with `TECK_T`, is at least 21 characters long, and is upper case. |
| SbetSync.GroupIndexIsComprehension | Copy_SBET.py:28-34 | A key is in the index exactly when some walked directory has it, and its list holds those directories' paths in walk order. |
| SbetSync.EmptyIndex | Copy_SBET.py:40-42 | With no keyed directory the index is empty and the run does nothing. |
| SbetSync.FirstTagged | Copy_SBET.py:47-50 | The first path whose upper-cased form contains the tag, and none when no path does. |
| SbetSync.PlanGroup | Copy_SBET.py:47-76 | A group is skipped unless a VNIR path and a SWIR path are found. A listing failure skips it. A VNIR folder without a name starting with `sbet` (any case) skips it. Otherwise the SBET files to copy are exactly those names. |
| SbetSync.CopyGroup | Copy_SBET.py:81-90 | Each SBET file is copied under its own name into the SWIR folder, overwriting; one failure does not stop the others. |
| SbetSync.SbetFilesArrive | Copy_SBET.py:63-90 | Every SBET file of the VNIR folder whose copy does not fail ends in the SWIR folder with the VNIR file's contents. |
| SpectralView.FindBase | auto_run_spectralview.py:35-39 | The first listed file whose name without extension equals the base name; none while the folder is missing or holds no such file. |
| SpectralView.HeaderOfFoundFile | auto_run_spectralview.py:53-56 | The header waited for is `<base>.hdr` in the same folder, whatever the found file's extension. |
| SpectralView.HeaderCanBeTheBaseFile | auto_run_spectralview.py:35-39 | A header listed first is itself accepted as the base file. |
| SpectralView.SwitchKeys | auto_run_spectralview.py:74-86 | The reset sends the given number of left presses, then one right press per desktop index. |
| SpectralView.StartKeys | auto_run_spectralview.py:98-104 | Starting a task sends exactly four tabs, then a space. |
| SpectralView.SwitchLandsOnTarget | auto_run_spectralview.py:74-86 | Starting at most as far right as the number of left presses, the switch ends on the target desktop. |
| SpectralView.SingleSwitchLands | auto_run_spectralview.py:74-86 | The single-folder reset of `len(names) + 1` left presses reaches any existing target from any desktop the run uses. |
| SpectralView.CyclesAreScheduled | auto_run_spectralview.py:130-158 | For each file the run waits for the base file and its header. It stops after the last file. Otherwise it switches to desktop i + 1 and starts the SpectralView processing job, so desktops 1 to n - 1 are visited once each, in order. |
| SpectralView.RunSingle | auto_run_spectralview.py:115-158 | An unconfigured folder or empty name list gives no event; otherwise the run follows the schedule of its files. |
| SpectralView.UnconfiguredSendsNothing | auto_run_spectralview.py:115-117 | An unconfigured run sends no keystroke. |
| SpectralView.Slots | auto_run_spectralview_many_folders.py:116 | The number of slots is the sum of the stages' file-list lengths. |
| SpectralView.SlotsAt | auto_run_spectralview_many_folders.py:128-145 | Stage k's files occupy the slots after all earlier stages' files, in order. |
| SpectralView.RunMany | auto_run_spectralview_many_folders.py:111-113 | An empty stage list gives no event. |
| SpectralView.ManyIsFlatSchedule | auto_run_spectralview_many_folders.py:128-166 | The global index advances by one per completed file, in concatenated stage order. The run stops right after the last slot, without switching. So the multi-stage run is the single-folder schedule over all slots. |
| SpectralView.NoSlotsNoEvents | auto_run_spectralview_many_folders.py:128-147 | Stages with no files produce no event. |
| SpectralView.ManySwitchLands | auto_run_spectralview_many_folders.py:77-87 | The reset of `total + 2` left presses reaches any existing target from any desktop the run uses. |

## Left out

- Every operating-system, GUI and disk effect is an input or an output of the model, never performed. This covers `psutil`, the `win32*` calls, `pyvda`, `pyautogui`, `shutil`, `os.listdir`, `os.walk` and `os.makedirs`. The model's decisions are what is modelled; the effects are not.
- Sleeps, pacing, printing and logging carry no decision and are omitted.
- Threads are modelled sequentially. The stderr watcher of the launch wait becomes the index of the first poll at which the error flag is set. The enforcement thread is modelled as passes over a snapshot taken after the launches.
- The polling loops are modelled as one poll per call, or as a finite trace of observations:
  - `ensure_desktops` is given a trace of desktop queries. When no query reaches the count it is still `Waiting`, because the source has no retry bound.
  - `wait_for_file` and `wait_for_hdr_file` are assumed to end. The schedule records the waits as events and does not model the time they take.
- ProcessTree.FindRoot: the source's walk has no depth bound. The model gives it one parent step per live process. `TrackedPidsResolve` and `DivergenceNeedsCycle` show that this bound only cuts short a walk around a cycle, which is reported as `Diverges`.
- Launcher.Least: `diff.pop()` takes an arbitrary member of the difference. The model always takes the smallest handle.
- Placement.Decide: in `new_desktop_per_instance.py` the table lookup is direct (a `KeyError` for a root with no entry), while the other variant uses `.get`. The model uses `.get`. `Provisioning.NewVariantConfig` shows that the older variant's table has every root as a key, so both agree there.
- A window handle that `GetWindowThreadProcessId` cannot resolve is skipped, as in `auto_new_desktop_per_instance.py`. The older variant would raise instead.
- Spreadsheet reading and writing are left out. So are column widths, `count_flight_lines`, `build_swir_index`'s folder pattern and walk pruning, and `get_list_of_teck_folders`. They are I/O or layout, with no selection rule beyond those modelled.
- `extract_utc_datetime` is not modelled. It is one regular-expression search used only to fill a spreadsheet cell.
- In `export_gps_files_per_flight.py` the float filter on the `Roll` column and `strptime` with month names are left out. The model starts from the flight's start and end hour and minute.
- Python's case mapping is modelled on ASCII letters only. Characters such as the Kelvin sign, which Python's `lower()` folds to an ASCII letter, are not handled. Unicode decimal digits other than `0`–`9` are likewise not handled.
- SbetSync.PlanGroup: groups are planned one at a time. The order in which the source visits its key groups is left open.
- Organisers.FlightMoves: whether a header exists is read from the listing taken before the loop. The source asks the disk at the time of each move, which differs only if something else changes the folder meanwhile.
- FolderSync.SyncPair: the source listing is an input. A source folder that cannot be listed (moving_txt_files.py:87-88) is not modelled, and neither is a pair skipped on that error.
- SbetSync.PlanGroup: a listing failure is one outcome. The source catches only a missing folder and would stop on any other error.
- Launcher.RunAllLaunchesOnItsDesktop: the lemma holds only when the session starts on the first desktop, or when `go()` works for the first folder. The source sets `current_desktop_idx = 0` (auto_new_desktop_per_instance.py:43) without reading the real desktop. `StartedElsewhereFirstLaunchMisplaced` shows a run that misplaces instances otherwise.
- Organisers.FlightMoves: a `shutil.move` that raises is not modelled. The exception escapes the `except (IndexError, ValueError)` at split_flight_into_flightlines.py:61 and ends the script, so the later moves do not happen. The plan is the one a run without failures makes.
- Organisers.PlanRaw: a copy or move that raises (move_raw_data.py:85-88) ends that folder's processing, so the rest of its files stay and the folder is not pruned from the walk. The model plans a run without failures.
- Organisers.PlanRf: likewise, a move that raises (move_Rf_Data.py:64-67) ends that folder's processing. The model plans a run without failures.
- Existence checks compare names exactly, as listing membership. On the Windows and NAS targets `os.path.exists` ignores letter case (update_excel_table.py:28-45, export_gps_files_per_flight.py:141), so names differing only in case are treated as distinct here.
- GpsExport.CopyAll: a `shutil.copy2` that raises is modelled as leaving the destination unchanged. A real failure can leave a partial or complete destination file. Such a file is not modelled, and the skip-if-exists test at export_gps_files_per_flight.py:141 would never repair it on a later run.
- FolderOps.CopySkipExisting: the same atomic failure. A partial file left by a failing `copy2` would be skipped as existing by every later run (moving_txt_files.py:72).
- FolderOps.CountIsNewNames: under the atomic failure only. A `copy2` that raises after writing the file adds a name without raising the counter, so the counter could be lower than the names gained.
- FolderOps.CopyOverwrite: a failing `copy2` is modelled as leaving the old contents, not a partial file.
- FolderOps.MoveSkipExisting: a failing `shutil.move` is modelled as moving nothing. A move across volumes that fails after copying can leave the file at both ends, which is not modelled.
- FolderSync.SyncPair: the same atomic failure as `FolderOps.CopySkipExisting`, so its count and gained names are promised under that model only.
- FolderSync.MergePair: the same atomic failure as `FolderOps.MoveSkipExisting`.
- SbetSync.CopyGroup: the same atomic failure as `FolderOps.CopyOverwrite`.
- `shutil.move` onto an existing name (platform-dependent overwrite) is not modelled, because the merge only moves names that are absent from the destination.

## Findings

| source | as written | input that shows it | evidently intended | confidence | as-written member | corrected member |
|---|---|---|---|---|---|---|
| update_excel_table.py:145-156 | The KML pattern is compiled with IGNORECASE, so the flight list accepts `N` as well as `n`. The list is then split on a lower-case `n` only. | `tof_6_flt_1N2_a.kml` is indexed under the one key `("6", "1N2")` | The same separator in either case, giving flights `1` and `2` | not executed | FlightNames.KmlKeysAsWritten | FlightNames.KmlKeys |

Other behaviours that look surprising are modelled as written and stated as properties. They are not claimed as defects:

- A `_v0` file shadows the base name (`VersionedFiles.VersionZeroShadowsBase`).
- `rf.bin` is moved but never triggers a move (`Organisers.RfBinAloneDoesNotTrigger`).
- The metadata pairing uses a `RAW_` prefix, although the script's description speaks of `_RAW` (`FolderSync.RawPartner`).
- The base-file wait can accept the header itself (`SpectralView.HeaderCanBeTheBaseFile`).
- The desktop-switch fallback counts from index 0, whichever desktop the session starts on. When `go()` fails for the first folder and the session is not on the first desktop, instances land on the wrong desktops (`Launcher.StartedElsewhereFirstLaunchMisplaced`).
