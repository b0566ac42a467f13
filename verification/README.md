# pi-camera core, modelled in Dafny

This project models the discrete core of a Raspberry Pi camera's user interface and display
stack, and proves properties of the model:

- **Reactive item registry** (`UIAccess.py`). Named fields, numeric fields, list fields and
  functions sit in an insertion-ordered dictionary, with per-topic ordered subscriber lists and
  a `*` wildcard topic. The model covers:
  - the three write paths: gated `set`, broadcasting `override_set` and silent `set_silently`;
  - the numeric clamp and step, the list toggle and function runs;
  - the save/load snapshot and the debounced persistence flush.
- **Camera configuration** (`DeviceInterfaces.py`). The preset rule: selecting a preset writes
  its settings silently, and editing any other setting resets the selector.
- **Devices** (`DeviceInterfaces.py`):
  - the rotary encoder's event logic;
  - the battery state-of-charge curve;
  - the shutter counter: `PIC%07d.jpg` names and the folder scan.
- **Menu state machine** (`MonoDisplayElements.py`). Browsing, editing, confirmation, the list
  cursor, menu building and the membership editor that aliases the configured names field.
- **Input dispatch** (`UI.py`). Sleep and wake, the rotor event router and the idle timeout.
- **Pixel surface** (`MonoDisplay.py`, `Splash.py`):
  - clipped pixel, run and rectangle writes, and the Bresenham line;
  - the bar gauges;
  - font lookup, text fitting and alignment, and text rendering;
  - the marquee frame cycle and the flush debounce;
  - the ordered dither;
  - the two-samples-per-byte panel format, and the boot splash that writes it by hand.

Callbacks are opaque numbers, and a broadcast returns the ordered list of callbacks it
invoked. Time is an integer count of microseconds. Exceptions the code lets escape become
`Err` values. Threads, timers, files and hardware are replaced by explicit parameters and
results.

Some behaviours of the code that the model keeps and that a reader may not expect:

- `load_fields` stores each value through `override_set`, so loading broadcasts every value
  it stores.
- A snapshot key that names no item makes loading fail with `KeyError`, because `has_field`
  goes through `get_item`, which raises for a missing name.
- Registering a second item under an existing name replaces the first.
- The ordered dither inverts by default (`invert=True`).
- A function's confirm flag survives leaving the editing mode. It is cleared only when the
  selection changes.
- A bool is a number wherever the code tests `isinstance(v, (int, float))`: `True` counts as 1
  and `False` as 0 in the clamp, the step and the preset selector.
- The list toggle decides membership with Python's `==` (`Items.PyEq`), under which `True == 1`:
  toggling `1` on a list that holds `True` removes the `True`.

## Model

| member | source | states |
|---|---|---|
| Items.Title | UIAccess.py:145-148 | an item's title is the given title when it is present and non-empty, otherwise its name |
| Items.GraphField | UIAccess.py:210-212 | a graph field is a field that can be neither set from outside nor persisted, holding the given name and value |
| Items.Clamp | UIAccess.py:232-251 | when both range bounds are numbers (a bool counting as 0 or 1) and so is the value, the result is one of the three objects value, lo and hi, and a number; any other value, or a field without a numeric range, passes unchanged |
| Items.ClampInRange | UIAccess.py:245-251 | with lo <= hi, `max(lo, min(hi, v))` lies in [lo, hi], with bools read as 0 and 1; a value strictly inside is returned as it is, one below gives the object lo, one above gives hi (lo when lo = hi, since `max` keeps its first argument on a tie), and clamping twice changes nothing; so `True` on the range (2, 10) gives 2 |
| Items.ClampReversedRange | UIAccess.py:245-251 | with lo > hi, the clamp always yields lo, for a bool value too |
| Items.Stepped | UIAccess.py:259-266 | `adjust` targets value + delta for a positive direction, and value - delta otherwise, zero included |
| Items.ToggleValue | UIAccess.py:314-336 | with membership decided by Python's `==` (so `True == 1`), toggling appends a candidate no element equals and otherwise removes the first element equal to it, which may be another object (`True` for the candidate `1`), keeping the order of the rest |
| Items.PyEqTrans | UIAccess.py:314-316 | Python's `==` on field values is transitive; with `PyEqRefl` and `PyEqSym` it is an equivalence, so the toggle's counts are well defined |
| Items.PyCountPositive | UIAccess.py:314-316 | `x in s` holds exactly when `s.count(x) > 0` |
| Items.StrPyCount | UIAccess.py:314-316 | for a string candidate, `in` and `count` under `==` are structural membership and multiplicity |
| Items.ToggleCount | UIAccess.py:318-336 | a toggle changes the candidate's count under Python's `==` by exactly one (to 1 when absent, down by one when present) and the count of no value unequal to it |
| Items.ToggleFlipsMembership | UIAccess.py:314-324 | when at most one element equals the candidate under `==`, the toggle flips `has_possible_value` (Python's `in`) |
| Items.ToggleTwiceRestores | UIAccess.py:318-336 | toggling a candidate no element equals twice restores the list exactly |
| Items.ToggleRemovesEqualNumber | UIAccess.py:318-336 | worked example: toggling `1` off `[True]` empties it, and off `[True, 1]` removes the `True` |
| Items.ToggleField | UIAccess.py:314-336 | a list value toggles; a string value fails with `AttributeError` for a string candidate (the substring test passes, then there is no `append`/`remove`) and `TypeError` otherwise; any other value is a `TypeError` from `in` |
| Seqs.RemoveFirst | UIAccess.py:30-35 | `list.remove` drops exactly one occurrence (the first), keeping the order of everything before and after it |
| Seqs.RemoveAppended | UIAccess.py:326-336 | removing a value just appended, when it was absent before, restores the list |
| Subscriptions.Subscribe | UIAccess.py:24-28 | the callback is appended to its topic's list, which is created when missing; no other topic changes |
| Subscriptions.Unsubscribe | UIAccess.py:30-35 | the first listing of the callback is removed; an unknown topic or an unlisted callback changes nothing |
| Subscriptions.SubscribeAddsOneCall | UIAccess.py:40-52 | a subscription adds exactly one call of the callback to broadcasts of its topic's item, and for `*` to broadcasts of every item; nothing else changes in any broadcast's call multiset |
| Subscriptions.TopicGains | UIAccess.py:24-28 | subscribing adds one listing of the callback to its own topic and none to any other topic |
| Subscriptions.UnsubscribeRemovesOne | UIAccess.py:30-35 | unsubscribing a listed callback removes exactly one of its listings and shortens the topic by one; other topics are untouched |
| Subscriptions.SubscribeThenUnsubscribe | UIAccess.py:24-35 | subscribing an unlisted callback and unsubscribing it again restores every broadcast's ordered call list |
| Subscriptions.TopicRestored | UIAccess.py:24-35 | the same round trip restores every topic's list |
| Registry.Empty | UIAccess.py:9-22 | a new interface is well formed, with no items, no subscriptions and persistence off |
| Registry.Register | UIAccess.py:56-58 | the item is stored under its name; a new name is appended to the insertion order and a duplicate keeps the old position |
| Registry.RegisterKeepsWf | UIAccess.py:56-58 | registering keeps every item stored under its own name, each name once in the order |
| Registry.RegisterAll | UIAccess.py:56-58 | a registration loop changes neither the hook, the subscriptions nor the persistence flag |
| Registry.RegisterAllKeepsWf | UIAccess.py:56-58 | a registration loop keeps the registry well formed |
| Registry.RegisterAllFresh | UIAccess.py:56-58 | registering items with distinct fresh names appends exactly those names in order and stores each item, keeping the earlier ones |
| Registry.RegisterDuplicateOverwrites | UIAccess.py:56-58 | of two items registered under one name only the second remains, and the order does not grow |
| Registry.GetItem | UIAccess.py:64-66 | lookup succeeds exactly for registered names and otherwise fails with `KeyError` |
| Registry.HasField | UIAccess.py:72-74 | `has_field` answers whether the item is a field, and fails with `KeyError` for an unregistered name |
| Registry.FieldAt | UIAccess.py:76-80 | `get_field` yields the item exactly when it is a registered field; an absent name is `KeyError` |
| Registry.SaveFrom | UIAccess.py:101-104 | the snapshot's keys are exactly the serializable fields, each once and in dictionary order, each with its current value |
| Registry.Persist | UIAccess.py:118-131 | the post-notification flush leaves items and subscriptions alone, and does nothing unless persisting to a non-empty path |
| Registry.ScheduledFlush | UIAccess.py:133-138 | the deferred persistence flush writes the current snapshot and records the time when persisting, and always clears the timer |
| Registry.Notify | UIAccess.py:40-54 | a notification calls the item's subscribers and then the wildcard ones, then requests the flush |
| Registry.SetSilentlyIn | UIAccess.py:189-190 | a silent write replaces exactly the named field's value; an absent name is `KeyError` and a non-field is an error |
| Registry.ApplyPreset | DeviceInterfaces.py:313-316 | applying a preset succeeds exactly when its registered keys are fields, keeps the item names, and silently sets each key the interface has to the preset's value |
| Registry.PresetWrites | DeviceInterfaces.py:306-318 | the camera rule's silent writes: a selector that is not a number (a bool is 0 or 1) fails with `TypeError`; one outside 1..number of presets writes nothing; a whole one in range writes its preset; a fractional one in range fails with `TypeError`; any other field resets the selector to 0; no write adds or removes items |
| Registry.Broadcast | DeviceInterfaces.py:306-320 | an update keeps the names, subscriptions, order and hook, and without persistence it keeps the flush state |
| Registry.OverrideSet | UIAccess.py:185-187 | `override_set` on an absent name is `KeyError` and on a non-field an error; otherwise only values change |
| Registry.Set | UIAccess.py:181-183 | `set` on a field that cannot be set does nothing and calls nobody; otherwise it is `override_set` of the clamped value |
| Registry.SetSilently | UIAccess.py:189-190 | `set_silently` stores the value, calls nobody and flushes nothing |
| Registry.Adjust | UIAccess.py:259-266 | `adjust` of an absent name is `KeyError` and of a non-numeric item an error; otherwise only values change |
| Registry.Toggle | UIAccess.py:314-336 | a toggle of an absent name is `KeyError` and of a non-list item an error; on a list field whose value is not a list it is `AttributeError` for a string value and string candidate, else `TypeError`; otherwise only values change |
| Registry.Run | UIAccess.py:281-285 | `run` of an absent name is `KeyError` and of a non-function an error; otherwise only values change |
| Registry.OverrideSetNotifies | UIAccess.py:185-187 | `override_set` stores the value, calls exactly the field's subscribers followed by the wildcard subscribers, then requests the flush |
| Registry.SubscriberCalledOncePerUpdate | UIAccess.py:40-52 | a callback subscribed once to one field is called exactly once per update of that field, and never for other fields |
| Registry.SetStaysInRange | UIAccess.py:242-251 | `set` of a number (a bool counting as 0 or 1) on a settable numeric field with lo <= hi stores a number in [lo, hi], stores a value strictly inside the range as it is, and keeps the numeric value of any in-range value |
| Registry.AdjustSteps | UIAccess.py:259-266 | `adjust` is `override_set` of the clamped value one step up or down, calling the field's listeners, when the field can be set, has a numeric step and holds a number, a bool being stepped as 0 or 1 (`True` with step 1 up targets 2); otherwise it does nothing at all |
| Registry.ToggleTwiceRestoresField | UIAccess.py:318-336 | toggling a candidate no element equals under `==` appends it, toggling it again restores the list, and each toggle calls the listeners once |
| Registry.RunCallsActionFirst | UIAccess.py:281-285 | an enabled function with an action calls the action, then the listeners, then requests the flush; otherwise nothing happens |
| Registry.QuietUpdateWritesAtOnce | UIAccess.py:118-131 | an update after the 5 s window has passed writes the snapshot at once, holding the new value, and records the time |
| Registry.BusyUpdateDefers | UIAccess.py:118-131 | an update inside the window writes nothing and leaves a deferred flush pending |
| Registry.NoPersistNoWrite | UIAccess.py:118-119 | without persistence an update neither writes nor moves the flush state |
| Persistence.LoadEntries | UIAccess.py:110-113 | replaying a snapshot only changes values; a key naming no item makes it fail |
| Persistence.LoadFields | UIAccess.py:106-116 | a missing file loads nothing; the persistence flag and path are set after the replay; an unknown key fails |
| Persistence.LoadEntriesAssigns | UIAccess.py:110-113 | on a plain interface, replaying distinct field keys sets each field to its entry's value and leaves every other item unchanged |
| Persistence.SaveLoadRoundTrip | UIAccess.py:101-116 | for an interface without an update hook: loading a saved snapshot into an interface of the same schema restores every serializable field, keeps the others, and saves the same snapshot again |
| Persistence.SaveFromAppend | UIAccess.py:101-103 | the snapshot of two runs of names is the first run's snapshot followed by the second's |
| Persistence.LoadEntriesAppend | UIAccess.py:110-113 | replaying two snapshots one after the other is replaying the first and then the second from where it left off |
| Persistence.LoadEntriesHead | UIAccess.py:110-113 | replaying a snapshot stores its first entry through `override_set`, then replays the rest from there |
| Persistence.UnknownKeyRefused | UIAccess.py:72-74 | a snapshot key that names no item makes `load_fields` fail |
| CameraConfig.FieldOf | DeviceInterfaces.py:303-304 | each setting is registered as a settable, persisted numeric field with a numeric range and step |
| CameraConfig.Config | DeviceInterfaces.py:288-304 | the new configuration is well formed, registers the eleven settings in order under the preset rule, and is not persisting |
| CameraConfig.AllPresetsFit | DeviceInterfaces.py:226-286 | each of the seven presets writes distinct registered settings and never the selector |
| CameraConfig.PresetSelectionApplies | DeviceInterfaces.py:311-316 | selecting preset v, with 1 <= v <= the number of presets, by a number or a bool whose value is v (`True` selects preset 1), stores the selector as given, silently writes every setting the preset names, leaves the rest alone, and calls only the selector's listeners |
| CameraConfig.PresetOutOfRangeWritesNothing | DeviceInterfaces.py:311-313 | a selector outside 1..number of presets, 0 and `False` included, writes no setting |
| CameraConfig.PresetNeedsWholeNumber | DeviceInterfaces.py:311-314 | a fractional in-range selector, or one that is neither a number nor a bool, fails with `TypeError` |
| CameraConfig.ConfigShape | DeviceInterfaces.py:288-304 | every state the configuration reaches keeps its eleven settings in order, all numeric fields under the preset rule, with every preset applicable |
| CameraConfig.ConfigStartsConsistent | DeviceInterfaces.py:288-304 | the new configuration's selector agrees with its settings: it starts at 0, picking no preset |
| CameraConfig.OverrideSetKeepsConsistent | DeviceInterfaces.py:306-320 | an `override_set` that succeeds keeps the selector consistent: when it picks a preset, that preset's settings are in place |
| CameraConfig.SetKeepsConsistent | DeviceInterfaces.py:306-320 | so does a `set` that succeeds |
| CameraConfig.LoadOthersAssigns | UIAccess.py:110-113 | replaying snapshot entries for settings other than the selector stores each value and leaves the selector at 0 |
| CameraConfig.SelectorLoad | DeviceInterfaces.py:311-316 | replaying the selector last re-applies its preset, which writes the values already loaded, so the saved items come back exactly |
| CameraConfig.HookedLoadEntries | UIAccess.py:110-113 | under the preset rule, replaying a consistent interface's snapshot, selector last, gives back its items exactly |
| CameraConfig.HookedSaveLoadRoundTrip | UIAccess.py:101-116 | under the preset rule, loading a consistent interface's saved snapshot reproduces its items and saves the same snapshot again |
| CameraConfig.ConfigSaveLoadRoundTrip | Boot.py:34-35 | the camera configuration's own round trip: a consistent state saved and loaded into any state the configuration reaches comes back exactly |
| CameraConfig.OtherFieldResetsPreset | DeviceInterfaces.py:317-318 | changing any other field stores it and silently resets the selector to 0, calling only that field's listeners |
| CameraConfig.OtherFieldNeedsSelector | DeviceInterfaces.py:317-318 | without a selector item, every other update fails with `KeyError` |
| CameraConfig.FunctionUpdatesStopAtRule | DeviceInterfaces.py:306-307 | a function update on the configuration calls the action only: no listeners, no flush |
| CameraConfig.ConfigPresetApplies | DeviceInterfaces.py:311-316 | in any state the configuration can reach, each of the seven presets applies completely |
| Debounce.Request | UIAccess.py:118-131 | a request flushes at once exactly when the cooldown has run out; otherwise it schedules one deferred flush for the remaining time, due at last + cooldown, only if none is pending, and otherwise coalesces |
| Debounce.Fire | UIAccess.py:133-138 | the deferred flush records its time and clears the timer |
| Debounce.Burst | UIAccess.py:118-131 | a burst gives one decision per request |
| Debounce.BurstRecords | UIAccess.py:118-131 | after a burst the recorded flush time is that of its last immediate flush (unchanged without one), and a timer is pending exactly when one was or the burst scheduled one |
| Debounce.AtMostOneTimer | UIAccess.py:127-131 | however long a burst is, it starts at most one timer, and none while one is pending |
| Debounce.ImmediateFlushesSpaced | UIAccess.py:124-129 | with a clock that does not go back, immediate flushes are at least a cooldown apart, and at least a cooldown after the last one recorded |
| Debounce.FiveSecondExample | UIAccess.py:118-131 | worked example: requests at 0, 1 and 2 s with a 5 s window give: an immediate flush, one flush deferred by 4 s, and one coalesced request |
| Surface.SetPixel | MonoDisplay.py:702-704 | only the addressed cell changes, and only when it is inside the buffer; it stores 1 exactly when the colour is non-zero |
| Surface.SetPixelOverwrites | MonoDisplay.py:702-704 | writing a pixel twice leaves only the second colour |
| Surface.SetHPixels | MonoDisplay.py:706-712 | row `y` takes the colours from column `x` on, cut at the right edge; every other cell, and everything for an off-buffer row, is unchanged |
| Surface.SetVPixels | MonoDisplay.py:714-720 | column `x` takes the colours from row `y` down, cut at the bottom edge; every other cell is unchanged |
| Surface.SetBlock | MonoDisplay.py:722-728 | the block lands with its top-left corner at (x, y), cut at the right and bottom edges; every cell outside it is unchanged |
| Surface.DrawHLine | MonoDisplay.py:147-148 | exactly the cells of row `y` from `x` to `x + w - 1` that lie in the buffer take the colour |
| Surface.DrawVLine | MonoDisplay.py:150-151 | exactly the cells of column `x` from `y` to `y + h - 1` that lie in the buffer take the colour |
| Surface.DrawRectFill | MonoDisplay.py:730-735 | nothing changes for w <= 0, h <= 0, x >= width or y >= height; otherwise exactly the rectangle's in-buffer cells take the colour |
| Surface.RectFillIdempotent | MonoDisplay.py:730-735 | filling the same rectangle twice is filling it once |
| Surface.DrawRectOutline | MonoDisplay.py:222-226 | a rectangle at least 2 x 2 colours exactly its border cells and leaves its inside and its surroundings alone |
| Line.DrawLine | MonoDisplay.py:153-176 | equal rows or equal columns give one run of abs(delta) + 1 cells from the first end point; otherwise the traced points start at (x1, y1), end at (x2, y2), stay inside the end points' box and move one step in each direction at a time; exactly the traced in-buffer cells are coloured |
| Line.DrawRow | MonoDisplay.py:154-156 | a horizontal line colours the run between the two columns, end points included |
| Line.DrawColumn | MonoDisplay.py:157-159 | a vertical line colours the run between the two rows, end points included |
| Line.Walk | MonoDisplay.py:161-176 | the Bresenham loop terminates, visiting both end points, only points inside their box, each one king step from the last |
| Line.Trace | MonoDisplay.py:161-176 | the diagonal case sets exactly the visited points, with `set_pixel`'s 0/1 colour |
| Line.PaintAll | MonoDisplay.py:166-167 | setting the visited points one by one colours exactly those in the buffer |
| Bars.Segments | MonoDisplay.py:369-378 | `sections = max - min + 1` being zero is `ZeroDivisionError`; otherwise the off-run ends floor(abs(min - start) w / sections) cells after `x`, and the on-run is floor(abs(end - start + 1) w / sections) cells long |
| Bars.SegmentsOrdered | MonoDisplay.py:372-380 | for a positive section count and a width that is not negative, the three runs are in order: x <= on start <= on end |
| Bars.SegmentsWithinBar | MonoDisplay.py:369-380 | with min <= start <= end <= max, the on-run ends inside the bar |
| Bars.FullRangeFillsBar | MonoDisplay.py:369-380 | the full value range makes the on-run the whole bar |
| Bars.OnRunGrows | MonoDisplay.py:373-378 | a larger end value never gives a shorter on-run |
| Bars.OffColour | MonoDisplay.py:382 | the off colour is 0 for colour 1 and 1 for any other colour |
| Bars.HBar | MonoDisplay.py:359-384 | an empty range is `ZeroDivisionError`; otherwise, inside the (bordered) inner box, cells of the on-run take the colour and the others the off colour, and everything else is as after the border |
| Bars.VBar | MonoDisplay.py:386-411 | the same partition along the column |
| Bars.HBarFull | MonoDisplay.py:359-384 | a bar showing the full range fills its whole inner box with the colour |
| Bars.HBarWithinBox | MonoDisplay.py:359-384 | for values within the range, the bar only changes cells of its inner box |
| Font.GetChar | MonoDisplay.py:56-59 | a supported code gives the glyph its map names, any other code glyph 0; every glyph has the font's size |
| Font.MapsCoverPrintable | MonoDisplay.py:53-54 | both fonts support exactly the codes 32 to 126 |
| Font.AsciiFontWf | MonoDisplay.py:44-51 | the ASCII map only names glyphs of a 94-glyph table |
| Font.CapsFontWf | MonoDisplay.py:27-34 | the capitals map only names glyphs of a 68-glyph table |
| Font.AsciiMapInjective | MonoDisplay.py:47-50 | in the ASCII map only the backtick shares a glyph, the space's |
| Font.UnsupportedDrawsSpace | MonoDisplay.py:56-59 | an unsupported code draws as a space |
| Font.CapsFoldsLowerCase | MonoDisplay.py:30-33 | the capitals font draws each lower-case letter as its capital |
| Text.FitText | MonoDisplay.py:552-556 | the fitted text is a prefix of the text, cut to `width` when longer (with Python's negative-slice meaning for a negative width) |
| Text.FitTextIdempotent | MonoDisplay.py:552-556 | fitting twice is fitting once, and never longer than the width |
| Text.Padded | MonoDisplay.py:568-575 | the padded text is exactly `w` characters: the fitted text, then blanks |
| Text.Centered | MonoDisplay.py:558-566 | the centred text is exactly `w` characters: floor((w - len) / 2) blanks, the fitted text, blanks |
| Text.RightAligned | MonoDisplay.py:577-584 | the right-aligned text is exactly `w` characters: blanks, then the fitted text |
| Text.FullTextAlignsAlike | MonoDisplay.py:558-584 | a text at least `w` long aligns to its first `w` characters in all three ways |
| Text.TextRows | MonoDisplay.py:586-617 | the rendered block has the font's height and `len * (width + 1)` columns, each cell the glyph bit of its character (0 in the gap column), inverted unless the colour is 1 |
| Text.DrawText | MonoDisplay.py:586-619 | exactly the block's cells inside the buffer change, to the toned glyph bits |
| Text.AlignedTextOverwritesBox | MonoDisplay.py:558-584 | each aligned draw decides every cell of its box regardless of what was there, and changes nothing outside the box |
| Marquee.HoldFrames | MonoDisplay.py:648-649 | the 2 s hold at each end of a scroll is 4 ticks of 0.5 s |
| Marquee.Step | MonoDisplay.py:654-668 | a tick past the last frame resets the frame to 0 and draws nothing; otherwise the frame advances by one, drawing the whole text at frame 0 and the scrolled text between the holds |
| Marquee.ScrollWindow | MonoDisplay.py:664-665 | a scrolling frame draws `text[k:]` for 1 <= k <= len - w, which always fills the box, and the last scrolling frame shows the text's last `w` characters |
| Marquee.FrameCycle | MonoDisplay.py:656-668 | from frame 0, after n ticks the frame is n mod (max frames + 2) and nothing else of the entry changes |
| Marquee.DrawsInCycle | MonoDisplay.py:658-666 | within one cycle, tick n draws exactly when n is 0 or n is past the start hold and before the end hold |
| Marquee.Add | MonoDisplay.py:621-626 | a text longer than the box is registered at frame 0 under its key, replacing any entry of that key and drawing nothing; a shorter one is only drawn padded |
| Marquee.Remove | MonoDisplay.py:628-631 | removal deletes exactly the key's entry, and changes nothing for an absent key |
| Marquee.RemoveAll | MonoDisplay.py:633-635 | the register is left without entries |
| Marquee.StepAll | MonoDisplay.py:654-668 | every entry steps once, in register order, keeping its key |
| Marquee.DrawsOf | MonoDisplay.py:654-666 | the tick's draws are non-empty exactly when some entry draws, and each comes from an entry; a single entry gives its own draw or none |
| Marquee.DrawsOfAppend | MonoDisplay.py:654-666 | the draws of two registers in a row are the first's then the second's: one draw per drawing entry, in register order |
| Marquee.Tick | MonoDisplay.py:651-670 | one animation pass steps every entry and collects their draws, keeping the register well formed |
| Display.Show | MonoDisplay.py:737-741 | the panel is handed the packed image of the surface as it is now, and nothing else changes |
| Display.Flush | MonoDisplay.py:122-134 | the panel shows the current surface exactly when the debounce says flush now; in every case nothing drawn is lost |
| Display.ScheduledFlush | MonoDisplay.py:136-140 | the deferred flush shows the surface as it is when the timer fires, records the time and clears the timer |
| Display.AddAnimated | MonoDisplay.py:621-626 | a long text joins the register with nothing drawn; a short one is drawn padded at once; neither flushes |
| Display.Animate | MonoDisplay.py:646-670 | a pass steps every entry, renders the tick's draws in register order onto the surface, flushes exactly when some entry draws, and otherwise changes only the register |
| Display.ApplyDrawsAppend | MonoDisplay.py:654-666 | rendering two lists of draws in a row renders the first list, then the second |
| Display.AnimateKeepsSettled | MonoDisplay.py:122-140 | an animation pass never leaves drawn cells unshown without a pending flush |
| Display.ZeroCooldownShowsAtOnce | MonoDisplay.py:76-81 | with the default zero cooldown and a clock that does not go back, every flush shows the surface at once |
| Dither.Threshold | MonoDisplay.py:485-495 | the threshold of a cell is the Bayer entry of its position modulo 8, in 0..63 |
| Dither.Cell | MonoDisplay.py:496-497 | a cell is 1 exactly when the pixel is above its threshold, flipped when inverting |
| Dither.Dithered | MonoDisplay.py:482-497 | the result has the image's shape and holds only 0 and 1, each cell as above |
| Dither.DefaultInverts | MonoDisplay.py:482-497 | with the default inversion, a cell is 1 exactly when 64 p <= 255 t |
| Dither.BlackAndWhite | MonoDisplay.py:482-497 | under the default inversion, a black image lights every cell and a white one none |
| Dither.MonotoneAndPeriodic | MonoDisplay.py:495-496 | without inversion a brighter pixel never gives a darker cell, and the pattern repeats every 8 rows and columns |
| Dither.DrawOrdered | MonoDisplay.py:540-547 | the dithered image lands at (x, y), cut at the buffer's edges, and nothing else changes |
| Packing.Sample | MonoDisplay.py:739 | a cell becomes a 4-bit sample, 15 times the cell for a 0/1 cell |
| Packing.FlattenIndex | MonoDisplay.py:741 | laying rows of length n end to end puts row i div n, column i mod n at position i |
| Packing.Pack | MonoDisplay.py:737-741 | odd widths of 5 or more are numpy's broadcasting `ValueError`; width 1 gives no bytes; an even width gives height * width / 2 bytes, byte i holding the samples of the pair of cells it covers, the even cell high |
| Packing.PackEvenRow | MonoDisplay.py:739-740 | an even-width row packs each pair of cells into one byte |
| Packing.WidthThreeSharesMiddle | MonoDisplay.py:740 | at width 3, both bytes of a row carry the middle cell in their low nibble |
| Packing.PackRoundTrip | MonoDisplay.py:737-741 | every cell of a black-and-white surface of even width can be read back from the packed image |
| Packing.Nibbles | Splash.py:18-21 | the byte 16 hi + lo of two samples has `hi` as its high nibble and `lo` as its low one |
| Splash.Target | Splash.py:14 | each logo cell becomes sample 15 when it is 1 and 0 otherwise; a cell outside the logo is 0 |
| Splash.WriteIndex | Splash.py:17 | pixel (sx, sy) lands in byte (sy W + sx) div 2, which is inside the W H buffer |
| Splash.PlacePixel | Splash.py:14-21 | a write changes only its own pixel's nibble, keeping the other nibble of the byte |
| Splash.ByteStep | Splash.py:17-21 | after the write, every byte holds exactly the nibbles of the pixels written so far |
| Splash.RowDone | Splash.py:12-13 | finishing a logo row is starting the next at column 0 |
| Splash.PlaceLogo | Splash.py:10-21 | the buffer is W H bytes, each holding the samples of the two pixels it covers once the whole logo is placed, and 0 beyond |
| Splash.Screen | Splash.py:7-8 | the intended screen is blank with the logo's cells at the centring offsets |
| Splash.SampleIsTarget | Splash.py:14 | the sample the panel's packing gives a screen cell is the value the splash loop writes for it |
| Splash.PlacedIsPacked | Splash.py:10-21 | the splash buffer's first H W / 2 bytes are exactly the display's packed image of the centred logo, and the rest are 0 |
| SplashScreen.LogoShape | Splash.py:3-5 | the logo is 17 rows of 21 cells, each 0 or 1 |
| SplashScreen.SplashBuffer | Splash.py:3-21 | on an even-width panel the logo fits, the offsets are the floor halves, and the buffer starts with the packed centred logo and ends in zeros |
| Menu.EditorItem | MonoDisplayElements.py:190-198 | the membership editor is a settable, unpersisted list field whose value is the names field's own list and whose candidates are the menu's candidate list |
| Menu.NamesOf | MonoDisplayElements.py:181 | iterating the names field's value: a string gives its characters in order, a list its string elements; a list holding a list is a `TypeError` (unhashable), and any other value is a `TypeError` |
| Menu.NamesOfList | MonoDisplayElements.py:181 | a list of one string lists that name, a list of one other non-list element lists nothing |
| Menu.NamesOfListAppend | MonoDisplayElements.py:181 | the names of two lists in a row are the first's names then the second's, so names keep their list order |
| Menu.NamesOfListCounts | MonoDisplayElements.py:181 | each name is listed as often as the list holds its string |
| Menu.Entries | MonoDisplayElements.py:178-188 | an entry refers to (interface, name) exactly when the name is listed, the interface has it and it is not the names field itself; the editor is in the menu exactly when it is built, and then comes last; the menu fails exactly when the names field's value cannot be iterated |
| Menu.EntriesListed | MonoDisplayElements.py:178-188 | the entries before the editor are the entries of the listed names, name by name in list order (with `RefsForAppend`, each name's run follows the previous one's) |
| Menu.EntriesCounts | MonoDisplayElements.py:178-188 | the editor appears at most once; each (interface, name) entry appears as many times as the name is listed, when the interface has it and it is not the names field; so listing a name twice gives its entries twice |
| Menu.CandidatesOf | MonoDisplayElements.py:193-196 | the candidates of one interface are its items other than the names field, each with its title, and a single name gives its one candidate (or none for the names field) |
| Menu.CandidatesOfAppend | MonoDisplayElements.py:193-196 | the candidates of two runs of names are those of the first followed by those of the second, so registration order is kept |
| Menu.CandidatesOfOnce | MonoDisplayElements.py:193-196 | over an interface's distinct item names the candidates are distinct, one per item except the names field |
| Menu.Build | MonoDisplayElements.py:160-169 | a built menu is well formed, on entry 0 and browsing; its entries are the listed entries followed by the editor, which it has exactly when the names field can be set, offering every other item; an unreadable names value fails with `TypeError`, and an empty menu, which can only happen without the editor, is refused |
| Menu.ChangeSelected | MonoDisplayElements.py:324-341 | an index outside the entries changes nothing; an accepted one selects it and clears editing, the confirmation and the cursor, rebuilding the entries only when flagged |
| Menu.ChangeSelectedWatchesOne | MonoDisplayElements.py:327-352 | after a reselection the menu's redraw callback listens exactly once, on the newly selected field, and nowhere else |
| Menu.ChangeValue | MonoDisplayElements.py:385-408 | editing a function flips the confirmation; a list field without candidates is a `TypeError`, and so is a ranged numeric field whose value is not a number (the arrows subtract the lower bound), after which a success leaves a number there; otherwise only values, the confirmation and the cursor change |
| Menu.StepNumber | MonoDisplayElements.py:388-393 | a ranged numeric field takes its `adjust` step; a value that is not a number is a `TypeError`, and a success leaves a number in the field and the menu as it was |
| Menu.ListChange | MonoDisplayElements.py:398-407 | a list field without candidates is a `TypeError`; a cursor move changes only the cursor, calls nobody, and lands on a candidate or keeps the cursor where it was |
| Menu.MoveRight | MonoDisplayElements.py:238-245 | editing, it changes the value upward; browsing, it selects the next entry if there is one and calls nobody |
| Menu.MoveLeft | MonoDisplayElements.py:247-254 | editing, it changes the value downward; browsing, it selects the previous entry if there is one and calls nobody |
| Menu.Press | MonoDisplayElements.py:256-271 | browsing, the press is declined; editing, it is accepted: a list toggles and stays in edit mode, anything else leaves edit mode |
| Menu.LongPress | MonoDisplayElements.py:273-300 | editing, it leaves edit mode, and on the editor reselects entry 0 and rebuilds; browsing, it enters edit mode exactly for an enabled function, a list with candidates or a settable numeric field, except that a ranged numeric field holding a non-number is a `TypeError` (MonoDisplayElements.py:364-368) |
| Menu.Arrows | MonoDisplayElements.py:474-486 | the left arrow shows exactly when index > 0, the right one exactly when index < length - 1 |
| Menu.ArrowsMatchMoves | MonoDisplayElements.py:238-254 | while browsing, an arrow shows exactly when a move in its direction would change the selection |
| Menu.LeftTimesSaturates | MonoDisplayElements.py:247-254 | n left moves while browsing select max(index - n, 0), calling nobody |
| Menu.FiveLeftsOnThreeEntries | MonoDisplayElements.py:247-254 | worked example: on a three-entry menu, five left moves end on entry 0 |
| Menu.NumericEditRoundTrip | MonoDisplayElements.py:256-300 | on a settable numeric field that is unranged or holds a number, a long press enters edit mode and a press leaves it, restoring the menu and calling nobody |
| Menu.ConfirmTwiceRestores | MonoDisplayElements.py:394-397 | while editing a function, a right turn flips the confirmation and a left turn restores the exact menu |
| Menu.PressRunsOnlyWhenConfirmed | MonoDisplayElements.py:260-263 | a confirmed press on an enabled function with an action runs it, then its listeners, and leaves edit mode; an unconfirmed press only leaves edit mode |
| Menu.ConfirmationLingers | MonoDisplayElements.py:356-379 | after a confirmed press, a long press re-enters edit mode with the confirmation still set |
| Menu.CursorMovesClamped | MonoDisplayElements.py:403-406 | while editing a list, a turn moves the cursor by one, clamped to the candidates, and changes nothing else |
| Menu.EditsKeepWatch | MonoDisplayElements.py:385-411 | edits keep the redraw callback listening exactly once on the selected field |
| Menu.EditorPressToggles | MonoDisplayElements.py:399-402 | a press on the editor toggles the cursor's candidate in the names field's own list, keeps the menu, and calls the editor topic's listeners on the names field's interface |
| Menu.EditorExitRebuilds | MonoDisplayElements.py:276-279 | leaving the editor reselects entry 0 and rebuilds the entries from the names field as it is now, keeping the editor |
| Menu.EditorToggleOnShows | MonoDisplayElements.py:197 | toggling an unlisted name on in the editor and leaving it gives that name an entry for every interface that has it |
| Menu.ListedNameShows | MonoDisplayElements.py:178-188 | leaving the editor succeeds when the names are listable, and each listed name gets an entry in every interface that has it |
| Menu.EditorToggleOffHides | MonoDisplayElements.py:197 | toggling off a name listed once and leaving the editor removes every entry for it |
| Ui.Wake | UI.py:68-79 | waking runs again, resets the idle clock, and reselects the current entry, which leaves edit mode |
| Ui.Sleep | UI.py:64-66 | sleeping stops the UI, which leaves edit mode, and changes nothing else |
| Ui.RotorAction | UI.py:140-160 | while asleep any event only wakes; when stopped or saving it is ignored; otherwise it resets the idle clock and is dispatched |
| Ui.Tick | UI.py:89-94 | a non-sleeping UI idle for more than 30 s goes to sleep, and nothing else changes |
| Ui.RotateDispatch | UI.py:150-154 | a positive turn goes to `move_right`, any other value, zero included, to `move_left` |
| Ui.PressFallsThroughToSnap | UI.py:155-158 | a press the menu declines takes a photo; an accepted one does not |
| Ui.LongPressForwarded | UI.py:159-160 | a long press goes to the menu's `long_press` |
| Ui.IdleSleepThenWake | UI.py:89-94 | after 30 idle seconds the UI sleeps; the next event only wakes it, on the same entry, and it does not sleep again at once |
| Ui.ActiveUiStaysAwake | UI.py:93-94 | within 30 s of an accepted event the UI does not sleep |
| Rotary.Initial | DeviceInterfaces.py:120-135 | a new encoder has both step counters at 0, no held press and no subscribers |
| Rotary.Subscribe | DeviceInterfaces.py:137-138 | the callback is appended and nothing else changes |
| Rotary.Unsubscribe | DeviceInterfaces.py:140-141 | removing an unlisted callback is a `ValueError`; otherwise exactly one listing goes |
| Rotary.Rotated | DeviceInterfaces.py:147-150 | a rotation broadcasts `steps - last_steps` to every subscriber and then remembers `steps` |
| Rotary.Held | DeviceInterfaces.py:159-163 | a hold marks the press held, zeroes both counters and broadcasts a long press |
| Rotary.Released | DeviceInterfaces.py:152-157 | the release after a hold is swallowed and clears the mark; any other release broadcasts a press |
| Rotary.DeltasTelescope | DeviceInterfaces.py:147-150 | the reported deltas of a run of rotations add up to the last reading minus the step count before the run |
| Rotary.HoldThenReleaseIsOneLongPress | DeviceInterfaces.py:152-163 | a hold and its release give one long press and no press; the next release is a press again |
| Rotary.RotationAfterHoldCountsFromZero | DeviceInterfaces.py:159-163 | the first rotation after a hold reports its steps from zero |
| Battery.StateOfCharge | DeviceInterfaces.py:104-111 | the charge is 1 from 4.2 V, 0 up to 3.0 V, and (v - 3.0) / 1.2 in between, always within [0, 1] |
| Battery.StateOfChargeMonotone | DeviceInterfaces.py:104-111 | a higher voltage never gives a lower charge |
| Battery.StateOfChargeInvertible | DeviceInterfaces.py:109-111 | between the limits, the charge determines the voltage |
| Shutter.ZeroPadValue | DeviceInterfaces.py:499 | the zero-padded decimal of n reads back as n |
| Shutter.FileName | DeviceInterfaces.py:499 | a photo name is `PIC`, the count padded to 7 digits, `.jpg`; a count below 10^7 gives exactly 14 characters |
| Shutter.Match | DeviceInterfaces.py:465-471 | a name matches when it starts with `PIC`, seven digits and `.jpg`, and the match's number is below 10^7 |
| Shutter.FileNameRoundTrip | DeviceInterfaces.py:465-499 | the scan's pattern reads back the number of every photo name whose count is below 10^7 |
| Shutter.LongNumbersNotMatched | DeviceInterfaces.py:465-499 | a photo name of a count of 10^7 or more is not matched |
| Shutter.FileNamesDistinct | DeviceInterfaces.py:499 | different counts below 10^7 give different names |
| Shutter.FolderMax | DeviceInterfaces.py:462-475 | the scan's result is at least every matched number and is one of them, or 0 |
| Shutter.ScanFolder | DeviceInterfaces.py:462-475 | the loop computes that maximum |
| Shutter.ScanAfterNewPhoto | DeviceInterfaces.py:462-499 | adding a photo raises the folder's maximum to its number when that is larger |
| Shutter.ShutterCount | DeviceInterfaces.py:441-451 | a cached count is returned unchanged; otherwise the stored count, failing that the folder's maximum, and it is cached |
| Shutter.Increment | DeviceInterfaces.py:477-482 | the new count is the current one plus 1; it is cached and stored |
| Shutter.ConsecutivePhotos | DeviceInterfaces.py:477-482 | two photos in a row get consecutive counts, whatever the file and folder say the second time |
| Shutter.NextPhotoIsNew | DeviceInterfaces.py:462-482 | with nothing cached or stored, the next photo's number is taken by no photo in the folder, whatever other files the folder holds |
| Menu.RefsFor | MonoDisplayElements.py:181-186 | the entries built for a list of names are exactly the (interface, name) pairs whose name is listed and present there, other than the names field; one name gives its run from `RefsIn` |
| Menu.RefsIn | MonoDisplayElements.py:182-186 | the entries for one name are that name in each interface that has it, other than the names field, in strictly increasing interface order |
| Menu.RefsInOnce | MonoDisplayElements.py:182-186 | one name's run holds each of its entries exactly once |
| Menu.RefsForAppend | MonoDisplayElements.py:181-186 | the entries for two lists of names in a row are the first list's entries then the second's: names ["b", "a"] give b's entries before a's |
| Menu.RefsForCounts | MonoDisplayElements.py:181-186 | each (interface, name) entry appears as many times as the name is listed, when it exists and is not the names field, and otherwise not at all |
| Menu.EditorCandidatesFrom | MonoDisplayElements.py:193-196 | the editor offers every item of every interface, except the names field, with its title, and nothing else, interface by interface in interface order |
| Menu.WatchTopic | MonoDisplayElements.py:329-352 | the redraw callback belongs on the selected entry exactly when it is a field; for the editor that is its own name on the names field's interface |
| Menu.UnwatchClears | MonoDisplayElements.py:329-330 | unsubscribing from the selected field leaves the redraw callback listening nowhere |
| Menu.WatchSets | MonoDisplayElements.py:348-352 | subscribing to the newly selected field makes the redraw callback listen exactly once, there |
| Menu.Reentries | MonoDisplayElements.py:332-334 | the entries are rebuilt only when the editor flagged a change, and every rebuilt entry resolves |
| Packing.Evens | MonoDisplay.py:740 | `img[:, ::2]`: the samples of columns 0, 2, 4, ..., (len + 1) / 2 of them |
| Packing.Odds | MonoDisplay.py:740 | `img[:, 1::2]`: the samples of columns 1, 3, 5, ..., len / 2 of them |
| Packing.Combine | MonoDisplay.py:740 | `(e << 4)` or-ed with `o` after broadcasting: element k combines e[k] and o[k], a length-1 operand standing for every position |
| Surface.Repeat | MonoDisplay.py:148 | `[col] * n` holds n copies of the colour, none for n <= 0 |
| Surface.Blank | MonoDisplay.py:692 | the display buffer starts with every cell 0 |
| Bars.FloorDiv | MonoDisplay.py:376 | `math.floor` of a quotient, for either sign of divisor |
| Bars.RowRuns | MonoDisplay.py:382-384 | the three fills of a horizontal bar: off before the on-run, on during it, off after it up to the bar's end |
| Bars.ColumnRuns | MonoDisplay.py:409-411 | the three fills of a vertical bar, down the column |
| Text.Tone | MonoDisplay.py:614-617 | a glyph bit is drawn as is for colour 1 and inverted for any other colour |
| Text.TextRow | MonoDisplay.py:595-602 | a rendered row is `len * (width + 1)` cells, each the glyph bit of its character, 0 in the gap column |
| Shutter.DecimalValue | DeviceInterfaces.py:471 | `int` of a number's decimal digits is the number |
| Shutter.ZeroPad | DeviceInterfaces.py:499 | `:07d` gives at least 7 digits, padding shorter numbers on the left |

## Left out

- Threads, locks and `threading.Timer`: each debounce becomes a pure decision over an explicit clock, and the animation thread becomes one tick function.
- File I/O: the settings JSON, the shutter-count file and `os.listdir` become parameters (a snapshot, an optional stored count, a list of names).
- Hardware: the OLED driver, Picamera2 capture, the INA219 reads, gpiozero wiring and `systemctl poweroff`. The panel is reduced to the image it is handed.
- `Boot.py`, which only wires the process together.
- `power_on`, `power_off` and `test` of the display, and the menu's `pause`, `resume` and `show_message` with its auto-clear timer.
- The histogram analysis of `CameraInterface`, `draw_chart`, circles, triangles, `_fix_image` resizing and rotation, and the Floyd–Steinberg, Atkinson, Canny and threshold image modes. These are floating-point or OpenCV paths.
- Text rotation (`rotate`, done with OpenCV) is not modelled; text is drawn unrotated.
- All drawing the menu does (title, value, arrows, scroll bar, confirmation box) is left out, except the arrow visibility rule (`Menu.Arrows`). Value formatting (`get_formatted`) is left out.
- The font's literal glyph bitmaps: a font is its glyph table and character map, with every glyph of one size, so the source's crop `font_char[:height, :width]` is the identity.
- Surface.SetHPixels: requires a start column that is not negative, as does `Surface.DrawHLine`; `Surface.SetVPixels` and `Surface.DrawVLine` require a start row that is not negative; and so do `SetBlock`, `DrawRectFill`, the line and bar writers and the text writers. The source does not guard negative coordinates, and numpy reads them as offsets from the far edge.
- Line.DrawLine: horizontal and vertical lines need end points that are not negative, for the same reason.
- Bars.Segments: floors the exact quotient `abs(min - start) * w / sections`. The source floors the float product `abs(min - start) * (w / sections)`, which can land one lower when the rounding falls just below a whole number.
- Bars.HBar: requires `max - min + 1 >= 0`, and a width of at least 2 when bordered (the same for `Bars.VBar` and the height). A reversed range, or a border narrower than 2, gives negative fill sizes in the source, which are not modelled.
- Dither.Dithered: compares the exact fractions `p / 255` and `t / 64`, where the source compares float32 values. They are equal only when p = t = 0, where both comparisons are false; otherwise they are at least 1/16320 apart, so the outcome is the same.
- Dither.DrawOrdered: takes an image already at its final size, since the resize that precedes it is OpenCV.
- Display.Valid: the display has an even width, as the panel has, so the odd-width `ValueError` of `Packing.Pack` is not reached from `Display`.
- SplashScreen.SplashBuffer: requires an even panel width of at least 21 and a height of at least 17, so that the logo fits; the panel's fixed size is a parameter.
- Registry.PresetWrites: Python's int and float are both one real number here. A whole float selector such as 2.0, which Python refuses as a list index, applies the preset in the model.
- Battery.StateOfCharge: uses exact real arithmetic, not floating point.
- Rotary.Rotated: the encoder's step counter is taken as reported. The wrap-around that gpiozero applies with `wrap=True` is library behaviour and is not modelled.
- Shutter.Match: `\d` is read as the ASCII digits 0 to 9. Python's `\d` also accepts other Unicode decimal digits.
- Shutter.ShutterCount: the count file's contents arrive already parsed; an unreadable file is the absent stored count.
- Registry.OverrideSet: `override_set` stores the value before it broadcasts, so when a listener or the update hook raises, the source keeps the new value (and whatever earlier listeners did). The model's `Err` result does not carry that partly updated state; the same holds for `Registry.Broadcast`, `Registry.Set`, `Registry.Adjust` and `Registry.Toggle`, which end in it.
- Persistence.LoadEntries: when a later key names no item, the source has already stored and broadcast the earlier entries before the `KeyError`. The model's `Err` result drops those earlier stores; `Persistence.LoadFields` inherits this.
- Menu.LongPress: on a ranged numeric field holding a value that is not a number, the source has already set `_is_editing` and redrawn the entry arrows when the subtraction for the value arrows raises the `TypeError`; the model's `Err` drops that edit-mode flag. `Menu.ChangeValue` likewise drops the step `adjust` has already stored before the same subtraction fails.
- Menu.ChangeSelected: while the menu is running and not paused, drawing a list field's value reads `possible_values[cursor]` and tests `in` on the field's value, which raises for a list field without candidates (indexing `None`) or one whose value is not a container. Drawing is left out, so these failures are too: the model selects such an entry without error, and `Menu.ChangeValue` toggles without redrawing.
- Menu.Build: refuses an empty menu with `NoMenuItems`. The source writes `raise exception(...)`, where `exception` is `logging.exception`, which logs and returns None, so what actually escapes is a `TypeError` (raising None); the model keeps the refusal the message intends.
- Ui.Tick: the polling loop's one-second period is left out; a tick is given the time at which it runs.
- Display.Animate: one pass of the animation loop; the 0.5 s sleep between passes is the caller's clock.
