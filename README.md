# Memory visualizer and binary/ASCII visualizer: a Dafny model

The repository holds two browser teaching tools, each written as one JavaScript class:

- `code_examples/example2.js`, the **binary/ASCII visualizer**. Eight bit switches stand for one byte. The byte is shown as its decimal value, its padded binary string and its ASCII character. A curriculum of 28 missions asks the learner to read hints or to set given values, and a help window breaks a target value down into the switches to turn on.
- `script.js`, the **memory visualizer**. The learner adds one file and several storage media, with sizes in units of 1024. A plausibility check asks for confirmation when a size is unusual. The media are kept sorted by capacity, and an animated simulation fills a medium with whole copies of the file. A curriculum of nine missions is about these sizes.

Both classes share one **mission progression engine**:
- a pointer to the mission shown;
- a set of completed missions that only grows;
- an unlock bound, a guarded selection, a check of the current mission's goal, and an advance to the next open mission.

The binary visualizer adds a deferred callback that completes the final mission.

The model has seven modules:

| file | module | what it holds |
|---|---|---|
| `wrappers.dfy` | `Wrappers` | The `Option` type the other modules share. |
| `progression.dfy` | `Progression` | The engine as pure functions on `Progress(current, completed)`, and its properties. |
| `bits.dfy` | `Bits` | Switches to value and back, the padded binary string and its base-2 reading, clamping, the `setBinary` input check, and the set-bit breakdown of the help window. |
| `ascii.dfy` | `Ascii` | The output box's label and colour class, the ASCII table, and the educational summary `getBitRepresentation`. They are compared with the US-ASCII code chart (ANSI X3.4-1986, reproduced in section 2 of RFC 20). |
| `binary_ascii.dfy` | `BinaryAscii` | The class `BinaryAsciiVisualizer`, its curriculum and the steps on its snapshot `Screen`. |
| `storage.dfy` | `Storage` | Unit conversion, the media classifier, the plausible ranges, the list operations (filter, stable sort by capacity) and the integer steps of the fill animation. |
| `memory_visualizer.dfy` | `MemoryApp` | The class `MemoryVisualizer`, its curriculum and the steps on its snapshot `World`. |

Each class keeps the fields the source updates in place.

Each method is specified against a pure step on a snapshot of those fields, for example `Snap() == AfterCheck(old(Snap()))`. The properties of the steps are proved as lemmas.

Mission goals are evaluated from the class's own fields. The value missions carry their target explicitly, as `Goal.ValueIs(target)`.

JavaScript that would throw is modelled as an error outcome that changes nothing after the throw. One case is `checkMission` reading the mission at a negative pointer. Another is `startSimulation` reading a medium at an index with no medium.

Callbacks scheduled with `setTimeout` are modelled as pending work that the environment may fire at any later point:
- the deferred completion of the final mission, counted in `pendingFinal`;
- the animation continuations, kept in `chains`.

## Model

| member | source | states |
|---|---|---|
| Progression.ReachIsHighest | code_examples/example2.js:802-811 | The running maximum after scanning missions 0..k-1 is 0 exactly when none of them is completed. Otherwise it is one more than a completed index, and no index at or above it below k is completed. |
| Progression.MaxUnlockedIsBounded | code_examples/example2.js:802-811 | The unlock bound always lies in 0..N-1, and it is 0 when no mission is completed. |
| Progression.MaxUnlockedFollowsHighest | code_examples/example2.js:802-811 | When `top` is the highest completed mission, the unlock bound is min(top + 1, N - 1). |
| Progression.SelectGuard | code_examples/example2.js:813-822 | Selection never changes the completed set. Mission 0 is always granted, and any unlocked index is granted. An uncompleted index other than 0 above the unlock bound leaves the whole standing unchanged. |
| Progression.SelectStaysBelowCount | script.js:185-193 | For a consistent standing, a selection at or beyond the mission count is refused and changes nothing. |
| Progression.StepsKeepConsistent | code_examples/example2.js:813-864 | Select, check, advance and the deferred completion each keep every completed index inside the curriculum and the pointer below N. |
| Progression.PointerStaysInRange | code_examples/example2.js:969-983 | From a pointer in 0..N-1, and with non-negative selections, every step leaves the pointer in 0..N-1. |
| Progression.CheckAddsOnlyCurrent | code_examples/example2.js:834-847 | A check never moves the pointer and does nothing once all missions are completed or when the goal fails. The completed set grows, and only by the current mission. It grows exactly when the curriculum is unfinished, the pointer is a mission, the goal holds and the mission was open. |
| Progression.CheckIsIdempotent | script.js:206-218 | Checking k >= 1 times against an unchanged world has the effect of checking once, so repeated checks add an index at most once. |
| Progression.NextOpenIsLowestOpen | code_examples/example2.js:972-978 | The scan returns the lowest uncompleted index at or after its start, having skipped only completed ones. If every index from the start on is completed, it returns the fallback. |
| Progression.AdvanceSkipsCompleted | script.js:311-324 | Advance keeps the completed set. It moves the pointer to the smallest uncompleted index after it, or leaves it where it is when every later mission is completed. |
| Progression.AdvanceAfterPrefix | code_examples/example2.js:969-983 | With exactly missions 0..j completed, advancing from any of them lands on j + 1, or stays put when j is the last mission. |
| Progression.AutoCompleteAtMostOnce | code_examples/example2.js:850-864 | The deferred completion always leaves the last mission completed. It moves the pointer to the last mission only if that mission was open. A second firing, or a firing after the last mission was completed some other way, changes nothing. |
| Progression.RunIsMonotone | code_examples/example2.js:813-983 | Along any sequence of selections, checks, advances and deferred completions, the completed set never shrinks and the standing stays consistent. |
| Progression.StepAddsAtMostOne | code_examples/example2.js:834-864 | One step adds at most one index to the completed set: the current mission or the last one. |
| Bits.SwitchValueBound | code_examples/example2.js:302-311 | The checked switches add up to less than 2^k for k switches, so eight switches give a byte. |
| Bits.SwitchValueExtend | code_examples/example2.js:306-310 | Adding switch i to the switches below it adds 2^i exactly when it is checked. This is the loop's accumulation step. |
| Bits.SwitchValueOfBits | code_examples/example2.js:331-339 | Setting the switches from a value by bit test and adding them up again gives the value back. |
| Bits.BitsOfSwitchValue | code_examples/example2.js:302-339 | Adding the switches up and setting them from the sum gives the same switches. |
| Bits.PaddedReadsBack | code_examples/example2.js:391 | Reading `v.toString(2).padStart(w, '0')` in base 2 gives v back, for any width. |
| Bits.BinaryStringOfByte | code_examples/example2.js:391 | For a byte, the shown binary string has exactly eight characters, all '0' or '1'. Character 7-i is '1' exactly when bit i is set, and its base-2 reading is the byte. |
| Bits.ClampIsNearestByte | code_examples/example2.js:321-322 | The clamped value is a byte at least as near to the argument as any other byte. Clamping fixes exactly the values 0..255 and is idempotent. |
| Bits.ParseBinaryRoundTrip | code_examples/example2.js:1235-1242 | A string is accepted exactly when it has one to eight characters, all '0' or '1', and it is then read in base 2. The binary string shown for any byte is accepted and reads back as that byte. |
| Bits.HelpDigits | code_examples/example2.js:1074-1080 | Digit 7-i of the target's padded binary string is '1' exactly for the set bits, and those bits add up to the target. |
| Bits.HelpSteps | code_examples/example2.js:1074-1087 | The breakdown lists each position exactly when its bit of the target is set. Positions are in strictly ascending order, each with worth 2^position, and the worths sum to the target. |
| Ascii.DecimalRoundTrip | code_examples/example2.js:385 | The decimal numeral in the `[v]` label reads back as v, and a value from 128 to 255 has three digits. |
| Ascii.OutputCategoryFollowsCodeChart | code_examples/example2.js:348-387 | The output box gives the control class exactly to the RFC 20 control characters and to the values from 128 on. The digit class goes exactly to the decimal digits, the letter class exactly to the Latin letters, and the special class to the remaining graphic characters and the space. |
| Ascii.OutputTextShape | code_examples/example2.js:348-387 | A value is shown as one character exactly when it is printable (32..126), and that character has the value's code. Every other value gets a name of two to six characters. |
| Ascii.SpaceLabelNeverShown | code_examples/example2.js:376-379 | No byte is labelled "SPACE": 32 is printable and is shown as the blank character with the special class. |
| Ascii.LabelRoundTrip | code_examples/example2.js:348-387 | Decoding the label the output box shows for a byte gives that byte back. |
| Ascii.OutputLabelsAreDistinct | code_examples/example2.js:348-387 | Different byte values get different labels. |
| Ascii.TableNamesFollowRfc20 | code_examples/example2.js:623-681 | Each table cell for 0..127 shows the RFC 20 name except at 0, 7, 9 and 32, where it spells out NULL, BELL, TAB and Space. It is drawn as control exactly for the RFC 20 control characters. |
| Ascii.TableAgreesWithOutput | code_examples/example2.js:623-681 | For 0..127 the table and the output box use the same colour class. They show the same text exactly for the graphic characters and for NULL, TAB, LF, CR and DEL. |
| Ascii.CreateAsciiTable | code_examples/example2.js:603-612 | The table body has 32 rows of four groups. Row r, group c shows value r + 32c, so every value 0..127 appears at row v mod 32, group v div 32. |
| Ascii.TableIsPlainAscii | code_examples/example2.js:603-681 | Every cell shows a US-ASCII value, so the extended class is never used. Each cell's binary string has eight digits and reads back as the cell's value. |
| Ascii.WorthMatchesSwitches | code_examples/example2.js:575-587 | Bits listed from position 7 down, each one exactly when its switch is on and worth 2^position, add up to what the switches stand for. |
| Ascii.BitRepresentationDescribesValue | code_examples/example2.js:575-587 | The summary's binary string reads back as the value. The eight listed bits run from position 7 down, each one exactly when that bit is set, and their worth adds up to the value. The character is the output box's character for a printable value and "[Steuerzeichen]" otherwise. |
| BinaryAscii.CurriculumShape | code_examples/example2.js:8-177 | There are 28 missions. The first and the last ask for a hint, every other one for a value, with the target values strictly ascending. No timer is zero, so `timer \|\| 3` never falls back to three. |
| BinaryAscii.CheckStepFacts | code_examples/example2.js:834-864 | A check leaves value, switches and hints alone. It changes the standing exactly as the engine's check does, or not at all when reading the mission throws. It schedules at most one deferred callback, and only when the learner stands on the completed second-to-last mission with the last one open. A notice appears only when a mission is newly completed. |
| BinaryAscii.StepsKeepCoherent | code_examples/example2.js:834-864 | Checks and deferred completions keep the switches showing the value and the standing consistent. |
| BinaryAscii.NoticeDuration | code_examples/example2.js:867-869 | A newly completed mission's notice lasts that mission's timer. The deferred completion's notice lasts the last mission's ten seconds. |
| BinaryAscii.FinalCompletesOnce | code_examples/example2.js:849-864 | Firing k >= 1 of the scheduled callbacks adds exactly the last mission, whatever k is, and uses up k callbacks. If the last mission was already completed, the standing does not change. |
| BinaryAscii.BinaryAsciiVisualizer.constructor | code_examples/example2.js:2-8 | The visualizer starts on value 202, with switches set from it, on mission 0, with nothing completed or read and nothing pending. |
| BinaryAscii.BinaryAsciiVisualizer.GetMaxUnlockedMission | code_examples/example2.js:802-811 | The loop returns the unlock bound, which lies in 0..27. |
| BinaryAscii.BinaryAsciiVisualizer.SelectMission | code_examples/example2.js:813-822 | The new state is the old one with the standing after the guarded selection. |
| BinaryAscii.BinaryAsciiVisualizer.CheckMission | code_examples/example2.js:834-865 | The new state is the check step of the old state, and `ok` is false exactly when the check throws. |
| BinaryAscii.BinaryAsciiVisualizer.FireFinalAutoComplete | code_examples/example2.js:850-864 | One scheduled callback fires: the new state is the deferred-completion step of the old state. |
| BinaryAscii.BinaryAsciiVisualizer.NextMission | code_examples/example2.js:969-983 | The notice closes, and the pointer moves as `Advance` says: to the lowest open mission after it, or nowhere. |
| BinaryAscii.BinaryAsciiVisualizer.UpdateSwitches | code_examples/example2.js:331-339 | Switch b is checked exactly when bit b of the value is set. Nothing else changes. |
| BinaryAscii.BinaryAsciiVisualizer.UpdateValueFromSwitches | code_examples/example2.js:302-319 | The value becomes the sum of 2^bit over the checked switches, which is a byte, and then the mission is checked. |
| BinaryAscii.BinaryAsciiVisualizer.ToggleSwitch | code_examples/example2.js:207-209 | Flipping switch `bit` sets the value to the flipped switches' sum and checks the mission. |
| BinaryAscii.BinaryAsciiVisualizer.SetValue | code_examples/example2.js:321-329 | The value becomes the argument clamped to 0..255, the switches are set from it, and the mission is checked. |
| BinaryAscii.BinaryAsciiVisualizer.ShowHint | code_examples/example2.js:694-721 | Only the open hint topic changes. |
| BinaryAscii.BinaryAsciiVisualizer.HideHint | code_examples/example2.js:723-732 | An open, non-empty topic is added to the hints read and the mission is checked. The topic is cleared unless the check throws. With no topic nothing changes. |
| BinaryAscii.BinaryAsciiVisualizer.HelpForCurrentMission | code_examples/example2.js:1048-1087 | A breakdown exists exactly when the current mission asks for a value. Its positions are exactly the target's set bits, in ascending order, and they sum to the target. |
| BinaryAscii.SetBinary | code_examples/example2.js:1235-1242 | A string is accepted exactly when it is one to eight binary digits, and then the value it reads as is set like `setValue`. Anything else changes nothing. |
| Storage.UnitLadder | script.js:861-871 | Unit k of byte, kb, mb, gb, tb is 1024^k bytes, so each unit is 1024 times the one before. An unknown unit converts like bytes, and a size converts to a positive count exactly when it is positive. |
| Storage.ClassifierFollowsBands | script.js:582-592 | The classifier returns floppy, cd, dvd, usb, smartphone or hdd exactly for capacities in that kind's band: below 10 MiB, 5 GiB, 10 GiB, 200 GiB and 2000 GiB, and above. |
| Storage.ClassifierIsMonotone | script.js:582-592 | A larger capacity never gets a kind from a lower band. |
| Storage.ValidateAsksOnlyOutOfRange | script.js:393-413 | Without the learner's confirmation a size passes exactly when its type has no range or the size lies within it. With confirmation every size passes. |
| Storage.RangesAreWellFormed | script.js:370-391 | Every range is non-empty. File ranges exist exactly for image, text, music and video, and media ranges exactly for the six kinds of medium. |
| Storage.FilterKeepsOrder | script.js:476-480 | Filtering works element by element in order: a concatenation filters to the concatenation of the filtered parts, a single element is kept exactly when it passes, and a list whose every element passes comes back unchanged. |
| Storage.FilterCounts | script.js:476-480 | Filtering keeps every element that passes as often as it occurs, and nothing else. |
| Storage.FilterKeepsSorted | script.js:618-620 | Filtering a list sorted by capacity leaves it sorted. |
| Storage.InsertSortsAndKeeps | script.js:629-631 | Stable insertion into a sorted list gives a sorted list that is the old list plus the new medium. |
| Storage.SortIsSortedPermutation | script.js:629-631 | Sorting by capacity gives a sorted permutation of its input. |
| Storage.SortKeepsSorted | script.js:629-631 | Sorting a sorted list leaves it unchanged. |
| Storage.AppendThenSort | script.js:567-568 | Appending a medium to a sorted list and sorting is the stable insertion of that medium. |
| Storage.StartChainFits | script.js:808-809 | A run starts at step 0 with maxFiles = floor(capacity / total), so maxFiles copies fit and one more would not. Its step is max(1, ceil(maxFiles / 20)): the least positive step with which twenty steps reach maxFiles. |
| Storage.AnimateStaysWithinCapacity | script.js:813-828 | A tick never writes more than the capacity. A tick continues the run exactly when the run is active, unfinished and one more step stays below maxFiles. It then advances the step by exactly stepSize and writes step × total. A tick that ends the run writes exactly maxFiles copies. |
| Storage.RunEnds | script.js:813-828 | An active run whose remaining steps fit in k + 1 ticks ends within them, having written maxFiles copies. |
| Storage.SimulationEndsWithinTwentyTicks | script.js:800-831 | A freshly started simulation that nobody stops ends within 20 ticks, having filled exactly floor(capacity / total) copies. |
| MemoryApp.NoticeSecondsOfCurriculum | script.js:215-220 | Mission 2's notice lasts zero seconds. Mission 7, which has no timer, falls back to three, and every other mission uses its own timer. |
| MemoryApp.CheckKeepsCoherent | script.js:206-218 | A check changes only the standing and the notice, exactly as the engine's check, and nothing at all when it throws. Files, media, selections, simulation and pending ticks are unchanged. The notice changes only when the completed set grows, and then shows the completed mission's duration. It keeps the visualizer coherent. |
| MemoryApp.AddFileReplacesList | script.js:327-366 | A non-positive size, or an out-of-range size the learner declines, changes nothing. A positive size that is in range or confirmed replaces the list by exactly that one file, of the selected type and converted size, and completed missions stay completed. Media and simulation stay untouched. |
| MemoryApp.AddMediaKeepsSorted | script.js:536-580 | The media stay sorted by capacity. A non-positive capacity, no selected type, or an out-of-range capacity the learner declines changes nothing. A positive capacity of a selected type that is in range or confirmed makes the media the old list plus the new medium, inserted after the media of at most its capacity, and completed missions stay completed. |
| MemoryApp.RemovalDropsExactlyTheId | script.js:618-627 | Removing a file or a medium drops exactly the items with that id and keeps the rest, so the media stay sorted. Removing a medium resets the simulation to inactive, index -1, nothing filled. |
| MemoryApp.RemovalKeepsOrder | script.js:476-480 | Removing from a list split in two parts is removing from each part, so the kept files and media stay in their original order. Removing an id that no item carries leaves the list unchanged. |
| MemoryApp.StartFillsWithinCapacity | script.js:789-830 | Starting shows at most the chosen medium's capacity as filled. An index with no medium (while files exist) throws after the simulation is marked active. The run it schedules fits that medium. |
| MemoryApp.TickFillsWithinCapacity | script.js:813-828 | A scheduled tick writes at most the capacity of the medium its run was started for. It keeps the visualizer coherent and never adds more than one pending tick in place of the one that fired. |
| MemoryApp.TickAfterRemovalWritesFullFill | script.js:813-818 | For every world, removing a medium cancels no pending tick: the next tick that fires writes its chain's full fill, ends its chain and leaves the simulation inactive. |
| MemoryApp.StaleTickAfterRemoval | script.js:813-818 | A tick left over from an earlier run still writes its full fill after its medium was removed and the simulation reset. |
| MemoryApp.MemoryVisualizer.constructor | script.js:2-13 | The visualizer starts with no files or media, text selected, no media type, the simulation idle, on mission 0 with nothing completed. |
| MemoryApp.MemoryVisualizer.GetMaxUnlockedMission | script.js:175-183 | The loop returns the unlock bound, which lies in 0..8. |
| MemoryApp.MemoryVisualizer.SelectMission | script.js:185-193 | The new state is the old one with the standing after the guarded selection. |
| MemoryApp.MemoryVisualizer.CheckMission | script.js:206-218 | The new state is the check step of the old state, and `ok` is false exactly when the check throws. |
| MemoryApp.MemoryVisualizer.NextMission | script.js:311-324 | The notice closes, and the pointer moves to the lowest open mission after it, or stays. |
| MemoryApp.MemoryVisualizer.SelectFileType | script.js:112-113 | Only the selected file type changes. |
| MemoryApp.MemoryVisualizer.SelectMediaType | script.js:123-124 | Only the selected media type changes. |
| MemoryApp.MemoryVisualizer.AddFile | script.js:327-366 | The new state is the add-file step, with `confirmed` standing for the answer to the dialog. |
| MemoryApp.MemoryVisualizer.AddMedia | script.js:536-580 | The new state is the add-media step: append, sort, then check. |
| MemoryApp.MemoryVisualizer.SortMediaByCapacity | script.js:629-631 | The media become their stable sort by capacity. Nothing else changes. |
| MemoryApp.MemoryVisualizer.RemoveFile | script.js:476-480 | The files become the old files without the given id. |
| MemoryApp.MemoryVisualizer.RemoveMedia | script.js:618-627 | The media lose the given id and the simulation is reset. |
| MemoryApp.MemoryVisualizer.StartSimulation | script.js:789-798 | The new state is the start step. `ok` is false exactly when reading the medium or the mission throws. |
| MemoryApp.MemoryVisualizer.FireAnimation | script.js:813-828 | Pending tick k fires against the simulation state of the moment. |

## Left out

- Rendering is not modelled: the DOM, CSS classes as styling, modals, tooltips, hint bulbs, mission buttons, German message and hint texts, HTML of the help explanation, LEDs (`updateLEDs` uses the same bit test as `updateSwitches`), decimal labels and animations (`animateChange`, `animateMediaScaling`, confetti, `showExample`).
- Real time is not modelled: progress bars and the notice timer's countdown are left out. The notice keeps only its duration in seconds. The `setTimeout` callbacks for the final mission and the fill animation are pending work fired by the environment, in any order and at any time.
- `getMissionTargetValue` reads a target from a check function's source text with a regular expression; each value mission instead carries its target explicitly.
- Floating point is not modelled: `formatSize`, bar widths and percentages, the grayscale value, and fractional or `NaN` sizes from `parseFloat`. Sizes and capacities are whole numbers of bytes, and a DVD's 3.5 GiB minimum is the whole number 3584 MiB.
- Outside inputs become parameters: `confirm()` answers become the `confirmed` argument, `Date.now()` ids become an `id` argument, and input fields become the size and unit arguments. `Math.random` file names and media display names are left out.
- The console helper `setCharacter`, the keyboard shortcuts and the console banner are not part of this model.
- `modulesViewed` is left out because no mission reads it. `toggleModule` is left out except for its `checkMission` call, which `CheckMission` models. The checks that `init` triggers through `initializeModuleStates` are not modelled separately.
- The header row of the ASCII table and the dec/bin/char cell styling are left out. `CreateAsciiTable` returns the 32 body rows.
- BinaryAscii.BinaryAsciiVisualizer.HelpForCurrentMission: a pointer outside the curriculum makes the source throw inside `getMissionTargetValue`. The model returns `None`, as for a hint mission, because neither case shows an explanation or changes state.
- BinaryAscii.BinaryAsciiVisualizer.ToggleSwitch: the browser flips the checkbox before the change handler runs. The model does both in one method.
- MemoryApp.MemoryVisualizer.SelectMediaType: the empty string is falsy in the source's `!this.selectedMediaType`. The model keeps it as `Some("")` and treats it like no selection in `AddMedia`.
- Source quirks kept as written:
  - The selection guard has no lower bound, so a negative index is granted (`Progression.Unlocked`). A later check then throws, which is modelled as `CheckFaults`.
  - The dead "SPACE" branch of `updateOutputs` is kept in `Ascii.OutputLabel`, and `Ascii.SpaceLabelNeverShown` shows it unreachable.
  - The two files compute notice durations differently: `timer || 3` in the binary visualizer, and the parameter default, used only when the timer is absent, in the memory visualizer.
  - `removeMedia` resets the simulation but does not cancel pending animation ticks (`MemoryApp.TickAfterRemovalWritesFullFill`, `MemoryApp.StaleTickAfterRemoval`).
