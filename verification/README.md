# Verified models of the native code in the ct2-br device tree

The device tree carries four pieces of native code with real logic, and this project models and proves
each of them:

- the **camera ION shim** (`ioe-test/camera_ion_shim.c`), which intercepts `ioctl`, `mmap` and `open`,
  searches for an allocation that can be mapped, and substitutes descriptors from two overwrite rings;
- the **WLAN private commands** (`wlan/driver_cmd_wext.c`, `wlan/driver_cmd_nl80211.c`): the scan-command
  encoders, the sequential-error counters and the start/stop state;
- the **Bluetooth vendor configuration** (`bt/hardware_mrvl.c`): HCI packets, buffers that pass between
  library and stack, and a callback-driven chain of commands;
- the **register-field and alignment macros** of the graphics HAL (`include/hardware/gc_hal_types.h`,
  `include/hardware/gc_hal.h`).

Code that works in place is modelled in place: classes over arrays and fields, with loops and frames. Each
such method is proved against functions on values, and the properties are lemmas about those functions and
about whole runs.

## How it is laid out

- `Basics` - vocabulary, runs of events folded over a state, and small arithmetic.
- `IonKernel` - the system calls of the shim as a trace, what they leave behind, and a kernel that answers
  as it pleases (fresh names are its only promise). `IonCascade` - the order in which an ALLOC tries its
  candidates, the calls of a try, first match and conservation. `IonAlloc` - the same in terms of the heaps
  that a request names and of the calls made. `IonRegistry` - the rings and the device
  list, as values and as classes. `IonWindow` - what a ring lookup means in terms of everything recorded.
  `IonShim` - the intercepted calls. `IonThreads` - any number of threads, one lock section a step.
- `ScanText` - `strtok`, `strstr` and `atoi` on byte strings. `ScanReadBack` - that they read back what a caller
  prints. `ScanCodec` - sections, their encoding and an
  independent decoder. `ScanBuffer` - writing through a cursor. `WextScan`, `BgScan` - the encoders.
  `WextScanMeaning`, `BgScanMeaning` - what they send for the text and the networks they are given.
- `ErrorCounter` - the counter against the history of outcomes. `DriverCmd` - the two drivers' entry points.
  `DriverRuns` - what whole runs of commands and answers lead to.
- `HciPacket` - packets and their readers. `HciConfig` - the library over buffers with owners. `HciRuns` -
  every interleaving of configurations.
- `GcBits`, `GcMacros` - words as bits, their numeric meaning, and the macros.

## Results that are not what one might expect

- With repeated handles a ring lookup does not return the newest length, because the scan does not stop at a
  match: `IonWindow.LookupNewest` says exactly when it does, `IonWindow.StaleLength` shows when not.
- Find, read and mark are separate lock sections. A recording serves twice only if both substitutions were
  inside at once (`IonThreads.SharingOverlaps`); keeping choices apart is enough for each to serve once, with
  everything else interleaved (`IonThreads.ExclusiveServesOnce`), and cannot be dropped
  (`IonThreads.ServedTwice`). Sixteen recordings in between can still give a thread the very descriptor it was
  refused (`IonThreads.Overtaken`). `IonThreads.ChosenIsRead` is the exact condition for a thread to read the
  recording it chose.
- Handles belong to a device, but the allocation ring knows them by number only, so a descriptor can be
  recorded with the length of another device's handle (`IonThreads.OtherDevicesLength`);
  `IonThreads.MeasuresItsOwn` says exactly when it gets its own.
- The grid never repeats a try, but the whole cascade does when the forced mask is a single heap outside the
  requested mask (`IonCascade.CascadeRepeats`); and it has nothing to offer a request that already names all
  32 heaps (`IonCascade.GridEmpty`), although the log then says that no combination worked.
- An SSID token longer than 255 bytes wraps its length byte; the decoder recovers the sections exactly when
  there is none (`BgScan.BackgroundScanDecodes`).
- The 720-byte background-scan buffer is enough for all commands of a length, whatever networks are
  configured, exactly up to 485 bytes, and for those that name an SSID exactly up to 717
  (`BgScan.SizeBound`, `BgScan.FitsExactly`).
- A SCO configuration reports success whatever status bytes the controller returns, since bytes 3 and 4 of
  the events alone decide a run (`HciRuns.OnlyOpcodesMatter`, `HciRuns.StatusIgnored`).

## Model

| member | source | states |
|---|---|---|
| IonShim.Shim.ValidateHandle | ioe-test/camera_ion_shim.c:207-229 | the probe makes exactly the calls of one of its three endings, and succeeds only if the descriptor could be mapped for the whole length |
| IonCascade.ProbeLeavesNothing | ioe-test/camera_ion_shim.c:207-229 | for every kernel answer the probe gives back its descriptor and its mapping, and never one it does not hold |
| IonShim.Shim.TryCombo | ioe-test/camera_ion_shim.c:231-255 | one candidate: exactly the calls of one outcome; success only for a handle that passed the probe; a rejected handle is freed |
| IonCascade.TryLeaves | ioe-test/camera_ion_shim.c:231-255 | a try changes nothing but the live handles, by the one it returns or the one the kernel would not free, which was not live before |
| IonShim.Shim.TryHeap | ioe-test/camera_ion_shim.c:286-298 | the inner loops try one heap under every distinct alignment and flag word, in order, up to the first success |
| IonShim.Shim.GridSearch | ioe-test/camera_ion_shim.c:265-302 | the calls made are those of the grid order up to the first success or to its end; -1 exactly in the second case; the returned heap is that of the returned handle |
| IonCascade.BlockShape | ioe-test/camera_ion_shim.c:277-283 | per heap at most two alignments by two flag words, original before rounded and cached before uncached, with equal variants tried once |
| IonCascade.GridMembers | ioe-test/camera_ion_shim.c:277-298 | the grid holds exactly the single heaps outside the skipped mask under the original or rounded alignment and the original or uncached flags |
| IonCascade.GridSorted | ioe-test/camera_ion_shim.c:285-298 | the grid is tried strictly in order of heap, alignment, flags, so nothing is tried twice, and at most four candidates a heap |
| IonCascade.FirstMatch | ioe-test/camera_ion_shim.c:290-297 | against a fixed verdict a search succeeds iff some candidate works, and returns the first that does |
| IonCascade.GridFirstMatch | ioe-test/camera_ion_shim.c:265-302 | the grid search fails iff no allowed heap and variant works, else returns the working one that precedes all others, within 128 tries |
| IonCascade.GridEmpty | ioe-test/camera_ion_shim.c:285-289 | the grid offers nothing iff the request names all 32 heaps |
| IonCascade.CascadeRepeats | ioe-test/camera_ion_shim.c:391-403 | the cascade tries a candidate twice iff the forced mask is a single heap outside the requested mask |
| IonCascade.SearchLeaves | ioe-test/camera_ion_shim.c:231-302 | conservation over a whole search, for every kernel: descriptors and mappings as before, live handles grown by exactly the kept ones, nothing freed or closed that was not held |
| IonCascade.KeptIsReturned | ioe-test/camera_ion_shim.c:248-254 | when every FREE succeeds a search keeps the one handle it returns, or none |
| IonCascade.AllocConserves | ioe-test/camera_ion_shim.c:372-414 | then a successful ALLOC adds exactly one handle, not live before, a failing one adds none, and descriptors and mappings are as before |
| IonAlloc.BitsOfMask | ioe-test/camera_ion_shim.c:286-287 | the mask of a list of distinct heaps has exactly their bits set |
| IonAlloc.EveryMaskNamesHeaps | ioe-test/camera_ion_shim.c:286-287 | every mask of n bits is the mask of a list of distinct heaps below n, so the rows below speak of every request |
| IonAlloc.GridOffers | ioe-test/camera_ion_shim.c:257-289 | for a request that names certain heaps the grid holds exactly: each of the other heaps of the 32 alone, with the request's alignment or 1 MiB if that is more, and its flags with or without the lowest bit |
| IonAlloc.GridChooses | ioe-test/camera_ion_shim.c:265-302 | for such a request and a fixed verdict the grid search succeeds iff something it may offer works, with what comes before all else that works |
| IonAlloc.EmptyAndRepeated | ioe-test/camera_ion_shim.c:285-289 | the grid is empty iff the request names all 32 heaps; the cascade repeats a try iff the forced mask is that of one heap that the request does not name |
| IonAlloc.AllocChooses | ioe-test/camera_ion_shim.c:371-414 | the whole ALLOC against a fixed verdict: the request as it stands if that works, else the forced mask if there is one and it works, else the best of the grid, and failure iff none works |
| IonAlloc.SearchAsks | ioe-test/camera_ion_shim.c:231-302 | a search makes one ALLOC call a candidate, with the request's length and the candidate's own words, in order, and everything it maps it maps whole, shared, readable and writable |
| IonAlloc.FoundWasMapped | ioe-test/camera_ion_shim.c:207-255 | the returned handle was allocated for the last candidate, exported, mapped for the whole length, unmapped and closed, and nothing follows |
| IonShim.Shim.TryRequest | ioe-test/camera_ion_shim.c:373-389 | the request as it stands: kept only if its handle passes the probe, else freed; the request keeps the stale handle |
| IonShim.Shim.IoctlAlloc | ioe-test/camera_ion_shim.c:371-414 | the whole ALLOC: baseline, forced mask, grid, as one search; the handle it returns and records; ENODEV and no record on failure; the descriptor ring untouched by its own probes; and what it leaves behind |
| IonShim.Shim.IoctlExport | ioe-test/camera_ion_shim.c:350-363 | a MAP or SHARE that succeeds is recorded with the length the allocation ring gives for its handle, if it gives one, and otherwise changes nothing |
| IonShim.Shim.DoMmap | ioe-test/camera_ion_shim.c:417-470 | a second mmap happens only after ENODEV, and then whenever a valid, unconsumed slot of that length holds another descriptor, with the first such and the same arguments; the slot is consumed iff it works |
| IonShim.Shim.NoteOpened | ioe-test/camera_ion_shim.c:315-330 | after every intercepted open the tracked descriptors are the first four, of all the opens there were, that succeeded on an ION path |
| IonRegistry.AllocRegistry.Record | ioe-test/camera_ion_shim.c:143-151 | overwrites the slot at the cursor and advances it |
| IonRegistry.AllocRegistry.LookupLen | ioe-test/camera_ion_shim.c:153-167 | the scan without a break computes the highest matching slot's length |
| IonRegistry.Lookup | ioe-test/camera_ion_shim.c:158-166 | found iff some slot holds the handle, and then the length of the highest slot that does |
| IonRegistry.MappedRegistry.Record | ioe-test/camera_ion_shim.c:169-178 | overwrites the slot at the cursor, unconsumed |
| IonRegistry.MappedRegistry.FindCandidate | ioe-test/camera_ion_shim.c:180-197 | the first valid, unconsumed slot of that length and another descriptor, or -1 |
| IonRegistry.MappedRegistry.MarkConsumed | ioe-test/camera_ion_shim.c:462-464 | consumes one slot and nothing else |
| IonRegistry.DeviceList.Track | ioe-test/camera_ion_shim.c:116-125 | appends while there is room |
| IonRegistry.DeviceList.IsDevice | ioe-test/camera_ion_shim.c:127-141 | true iff the descriptor is among the tracked ones |
| IonRegistry.FirstFourTracked | ioe-test/camera_ion_shim.c:116-125 | over any run the tracked descriptors are the first four opened |
| IonRegistry.RecordingIsFound | ioe-test/camera_ion_shim.c:169-197 | right after a descriptor is recorded with a length, a search for that length on behalf of any other descriptor finds a slot, and that descriptor's own if nothing else would do |
| IonShim.IonPathMeans | ioe-test/camera_ion_shim.c:327 | a path counts as ION's iff "/dev/ion" stands anywhere in it |
| IonRegistry.SlidingWindow | ioe-test/camera_ion_shim.c:143-151 | after n recordings the cursor is n mod 16 and slot j holds the latest recording whose ordinal is congruent to j |
| IonWindow.LookupIsWinner | ioe-test/camera_ion_shim.c:153-167 | a lookup returns the newest recording at or above the cursor if there is one, else the newest below it |
| IonWindow.WinnerDecides | ioe-test/camera_ion_shim.c:153-167 | that is the recording among the last 16 whose slot is above those of all others of its handle there |
| IonWindow.LookupInWindow | ioe-test/camera_ion_shim.c:153-167 | a lookup succeeds iff the handle is among the last 16 recordings, and returns its length if it is there once |
| IonWindow.LookupNewest | ioe-test/camera_ion_shim.c:159-164 | it returns the newest recording's length iff the handle is not recorded on both sides of the cursor with different lengths |
| IonWindow.StaleLength | ioe-test/camera_ion_shim.c:159-164 | a history where it returns an older length |
| IonThreads.StepKeepsInv | ioe-test/camera_ion_shim.c:143-197 | every step of every thread keeps the ring shapes and the provenance of their contents, and a valid slot stays valid |
| IonThreads.AnyInterleaving | ioe-test/camera_ion_shim.c:350-363 | in any interleaving every descriptor given to a second mmap was reported by an earlier MAP or SHARE of some device's handle, and was recorded with the length of an allocation validated, on whatever device, for a handle of that number |
| IonThreads.MeasuresItsOwn | ioe-test/camera_ion_shim.c:153-167 | a MAP or SHARE is recorded with the length of the newest allocation of its own device's handle iff the allocation that decides the ring lookup, among those of the handle's number, has that length |
| IonThreads.OtherDevicesLength | ioe-test/camera_ion_shim.c:143-167 | a run where one device's descriptor is recorded with the length of another device's handle of the same number |
| IonThreads.RunKeepsMarks | ioe-test/camera_ion_shim.c:462-464 | in any interleaving a slot is consumed iff the recording that it holds was in it when a thread marked it |
| IonThreads.RefusedFindsUsable | ioe-test/camera_ion_shim.c:180-197 | in any interleaving a refused mmap finds a descriptor iff one of the last 16 recordings was never marked, has the length asked for and is of another descriptor, and then takes the one in the lowest slot |
| IonThreads.ChosenIsRead | ioe-test/camera_ion_shim.c:444-453 | a thread reads the recording it chose iff no more recordings came between than the cursor was away from the slot |
| IonThreads.UndisturbedUseFits | ioe-test/camera_ion_shim.c:444-455 | then what it maps is another descriptor, recorded with the length asked for, in any interleaving |
| IonThreads.SharingOverlaps | ioe-test/camera_ion_shim.c:444-464 | in any interleaving, two working substitutions that use one recording are different ones, and at some point of the run both were between the choice of their slot and its marking |
| IonThreads.ExclusiveServesOnce | ioe-test/camera_ion_shim.c:444-464 | if a slot is chosen only while no other thread is between choice and marking, each recording serves at most one substitution and there are no more substitutions than recordings, however all other steps interleave |
| IonThreads.SerialSubstitution | ioe-test/camera_ion_shim.c:417-470 | one operation at a time: the same, and each substitution maps another descriptor than the refused one, recorded with the length asked for |
| IonThreads.ServedTwice | ioe-test/camera_ion_shim.c:444-464 | without that exclusion two threads can use one recording twice |
| IonThreads.Overtaken | ioe-test/camera_ion_shim.c:444-455 | even with it, a thread overtaken by 16 recordings can be given the refused descriptor, recorded with another length |
| ScanCodec.RoundTripIff | wlan/driver_cmd_wext.c:90-115 | sections decode to themselves iff every SSID fits its length byte |
| ScanCodec.DecodeThenEncode | wlan/driver_cmd_wext.c:90-115 | whatever decodes encodes back to the same bytes |
| ScanCodec.LowHigh | wlan/driver_cmd_nl80211.c:237-238 | the two bytes of an interval carry it mod 65536, negative values included |
| WextScan.ComboScan | wlan/driver_cmd_wext.c:90-115 | the bytes written are the header, a prefix of the SSIDs and the fixed tail, the prefix being as long as the guard lets it |
| WextScan.ComboScanMeaning | wlan/driver_cmd_wext.c:93-115 | the cursor ends at most at 359 of 360, at least nine SSIDs or all of them get in, and a decoder from byte 12 recovers the prefix, channel 0 and both dwell times |
| WextScan.NineFullSsids | wlan/driver_cmd_wext.c:93-95 | with 32-byte SSIDs exactly nine pass the guard |
| WextScan.CscanParams | wlan/driver_cmd_wext.c:131-189 | the bytes written are the header, one channel section with its repeats, the dwell times and the type, the repeats being as many as count and guard allow |
| WextScan.CscanMeaning | wlan/driver_cmd_wext.c:151-188 | the cursor is 22 or at most three short of the buffer; on a numbered channel the decoded passive time is the least multiple of 250 covering the request iff the buffer has room; on channel 0 it is the request up to 3000 |
| WextScanMeaning.PlainScanAsked | wlan/driver_cmd_wext.c:136-149 | a command word and a printed channel ask for that channel mod 256 and for 250 ms |
| WextScanMeaning.TimedScanAsked | wlan/driver_cmd_wext.c:140-149 | with ",TIME=" and a printed time: for that time mod 65536, or 250 if that is zero, whatever follows it |
| WextScanMeaning.TimedScanSpends | wlan/driver_cmd_wext.c:131-189 | from the text to the decoded command: a numbered channel is listened to for the least multiple of 250 ms that covers the printed time iff the buffer has room, all channels for that time up to 3000 ms |
| WextScanMeaning.HeaderBytes | wlan/driver_cmd_wext.h:21-22 | the twelve bytes of the header |
| WextScanMeaning.FixedBytes | wlan/driver_cmd_wext.h:23-35 | the bytes of the fixed parts of both commands |
| WextScanMeaning.RoomMeans | wlan/driver_cmd_wext.c:93-95 | an SSID is let in iff one of 32 bytes and the fixed part would leave at least one of the 360 bytes over |
| BgScan.PutToken | wlan/driver_cmd_nl80211.c:219-245 | one token writes the section of the first key found in it, or nothing |
| BgScan.PutTokens | wlan/driver_cmd_nl80211.c:217-246 | the token loop writes the matching tokens' sections in order and knows which kinds there were |
| BgScan.PutNetworks | wlan/driver_cmd_nl80211.c:248-260 | the list walk writes exactly the first 16 enabled networks with names of up to 32 bytes, in list order |
| BgScan.BackgroundScan | wlan/driver_cmd_nl80211.c:214-271 | the whole command: the header, what was asked for, the networks only if no SSID was, and defaults only for what was not given |
| BgScan.BackgroundScanDecodes | wlan/driver_cmd_wext.c:261-318 | a decoder from byte 14 recovers exactly those sections iff no SSID in the command is longer than 255 bytes |
| ScanReadBack.AtoiReadsBack | wlan/driver_cmd_nl80211.c:228-244 | `atoi` reads back any printed number, negative ones too, over leading white space and up to what follows it |
| ScanReadBack.TokensReadBack | wlan/driver_cmd_nl80211.c:168-180 | `strtok` gives back the words a text was written with, whatever spaces, tabs and line ends are between them |
| BgScanMeaning.TokenMeant | wlan/driver_cmd_nl80211.c:219-245 | "RSSI=", "INTERVAL=" and "REPEAT=" before a printed number mean that number, mod 256, 65536 and 256; "SSID=" before a name means that name |
| BgScanMeaning.FirstKeyCounts | wlan/driver_cmd_nl80211.c:219-241 | of two of them run together in one token the one looked for first counts, even if written last |
| BgScanMeaning.RequestMeant | wlan/driver_cmd_nl80211.c:182-271 | a written request becomes what its words mean, in order, then the first 16 usable networks unless it names an SSID, an interval of 30 unless it gives one, and 5 repeats unless it gives some |
| BgScanMeaning.NetworksSent | wlan/driver_cmd_nl80211.c:248-260 | the usable networks are exactly the enabled ones with names of at most 32 bytes, each at its rank among them in the list |
| BgScanMeaning.HeaderBytes | wlan/driver_cmd_nl80211.c:156-157 | the fourteen bytes of the header |
| BgScanMeaning.SectionBytes | wlan/driver_cmd_nl80211.c:160-166 | the bytes of each section, tag first, an interval low byte first |
| BgScan.TokenCost | wlan/driver_cmd_nl80211.c:219-245 | a matching token emits at least three bytes fewer than it has, and any but an SSID at most a third of its length with its delimiter |
| BgScan.TokensFit | wlan/driver_cmd_nl80211.c:168-180 | tokens with their delimiters are no longer than the command |
| BgScan.SizeBound | wlan/driver_cmd_nl80211.c:182-271 | with an SSID token the command grows by at most three bytes, so 717 bytes of it fit 720; with none it takes 563 bytes and a third of the arguments, so 485 bytes fit |
| BgScan.FitsExactly | wlan/driver_cmd_nl80211.c:159-190 | for every length: all commands of that length fit the buffer under all networks iff it is at most 485; all that hold an SSID token do iff it is at most 717 |
| ErrorCounter.CounterMeaning | wlan/driver_cmd_nl80211.c:64-73 | the counter is the failures since the last reset mod N+1, and a hang is reported exactly at every (N+1)th of them |
| ErrorCounter.ReportsPaidFor | wlan/driver_cmd_nl80211.c:64-73 | each report stands for N+1 failures of its own; without resets none is lost |
| ErrorCounter.StretchReports | wlan/driver_cmd_nl80211.c:64-73 | k(N+1) failures without a reset between them report exactly k hangs, whatever was counted before, and leave the count as it was |
| DriverCmd.Nl80211Driver.SendHangMsg | wlan/driver_cmd_nl80211.c:66-73 | a hang is reported iff this failure makes the failures since the last reset a multiple of N+1, and the counter stays within N |
| DriverCmd.Nl80211Driver.Command | wlan/driver_cmd_nl80211.c:291-380 | only POWERMODE and GETPOWER failures count, any private command but BGSCAN-START resets even when it fails, and the messages sent are exactly those of the command and of the counter |
| DriverRuns.CaseIgnored | wlan/driver_cmd_nl80211.c:300-313 | two words are the same iff they differ at most in the case of letters |
| DriverRuns.KindsApart | wlan/driver_cmd_nl80211.c:300-336 | the kind of a command is that of the one word it matches, private if none, so the order of the tests does not matter |
| DriverRuns.NoFailuresNoHangs | wlan/driver_cmd_nl80211.c:313-333 | over any run in which no POWERMODE is answered negatively and every GETPOWER brings a state back, the only HANGED messages are those of RELOAD |
| DriverRuns.FailuresReport | wlan/driver_cmd_nl80211.c:315-333 | k(N+1) failing power commands, with only commands between them that the counter ignores, report exactly k hangs besides those of RELOAD, whatever came before |
| DriverRuns.CountAfter | wlan/driver_cmd_nl80211.c:300-366 | what each command and answer do to the count: a private command other than BGSCAN-START sets it to zero whatever its ioctl answers |
| DriverRuns.AnswersOfStopAndStart | wlan/driver_cmd_nl80211.c:300-305 | STOP is answered STOPPED and START is answered STARTED, and nothing else is |
| DriverCmd.WextDriver.Command | wlan/driver_cmd_wext.c:338-430 | which commands reach the ioctl, rewritten or not; failing ioctls count and succeeding ones reset; the driver is started iff the last START or STOP to succeed was a START, and a stopped driver is sent nothing but START |
| DriverRuns.SentCounts | wlan/driver_cmd_wext.c:398-407 | with no failing ioctl no hang is reported, k(N+1) failing ones in a row report exactly k whatever came before, and a succeeding one sets the count to zero |
| DriverRuns.StartedIff | wlan/driver_cmd_wext.c:415-421 | the driver is started iff some START succeeded and no STOP has since, or it was started at first and no STOP succeeded |
| DriverRuns.RewrittenMeans | wlan/driver_cmd_wext.c:191-200 | SCAN-CHANNELS with 13 channels becomes COUNTRY EU, with 14 COUNTRY JP, with any other number COUNTRY US; RSSI-APPROX becomes RSSI |
| DriverCmd.WordsApart | wlan/driver_cmd_wext.c:347-420 | no command matches two of the eight tested words, whichever two, so the order of the tests does not matter |
| DriverCmd.StillCscan | wlan/driver_cmd_wext.c:352-378 | rewriting a command in place neither makes it a CSCAN nor keeps it from being one, so the late test may read the original |
| HciPacket.CommandRoundTrip | bt/hardware_mrvl.c:141-172 | a controller reads back opcode and parameters of a command packet iff there are at most 255 parameter bytes |
| HciPacket.EventRoundTrip | bt/hardware_mrvl.c:174-186 | the opcode of any Command Complete event is recovered, and its first return byte if it has one, whatever follows it in the buffer |
| HciPacket.BdAddressRoundTrip | bt/hardware_mrvl.c:129-139 | the address command decodes back to the address |
| HciConfig.VendorLibrary.PopulateBdAddrParams | bt/hardware_mrvl.c:129-139 | the static parameters hold id, length and the reversed address, however often they are rebuilt |
| HciConfig.VendorLibrary.BuildCmdBuf | bt/hardware_mrvl.c:141-172 | null when allocation fails, else a new buffer with the command packet |
| HciConfig.VendorLibrary.ParseEvtBuf | bt/hardware_mrvl.c:174-186 | reads opcode and first return byte of a buffer the library owns |
| HciConfig.VendorLibrary.SendOrAbort | bt/hardware_mrvl.c:269-278 | an accepted buffer is the stack's, a refused one is given back, and every failure is reported once |
| HciConfig.VendorLibrary.ConfigStart | bt/hardware_mrvl.c:285-314 | sends the address command and nothing else |
| HciConfig.VendorLibrary.ConfigStartCb | bt/hardware_mrvl.c:188-215 | reads, gives back, and reports success iff the opcode is that of the address command |
| HciConfig.VendorLibrary.ScoConfig | bt/hardware_mrvl.c:317-341 | sends the first command of the chain |
| HciConfig.VendorLibrary.ScoConfigCb | bt/hardware_mrvl.c:217-279 | reads, gives back, then sends the command that follows the completed one, or reports |
| HciRuns.SendLeavesNothing | bt/hardware_mrvl.c:235-275 | after a send the library owns nothing it did not own before |
| HciRuns.EveryBufferOnce | bt/hardware_mrvl.c:141-341 | over any interleaving with any completions, refusals and allocation failures each buffer is accepted by the stack or given back exactly once, and never read afterwards |
| HciRuns.OneReportPerStart | bt/hardware_mrvl.c:188-341 | over any interleaving with any completions each start is reported exactly once, or still waits |
| HciRuns.ConfigurationProtocol | bt/hardware_mrvl.c:75-101 | with completions of the awaited opcode the packets accepted for a configuration are, byte for byte, a prefix of its chain: the address last byte first, or PCM settings, sync settings, link settings and data path; and success is reported iff all were accepted and completed |
| HciRuns.ReactFollows | bt/hardware_mrvl.c:231-260 | the completion of a command of the chain leads to the next packet, and that of the last to success |
| HciRuns.ReactFails | bt/hardware_mrvl.c:262-279 | a completion that bears no opcode of the chain ends the configuration in failure |
| HciRuns.NothingElseSent | bt/hardware_mrvl.c:217-341 | over any interleaving with any completions nothing is sent for a configuration but packets of its own chain |
| HciRuns.OnlyOpcodesMatter | bt/hardware_mrvl.c:174-279 | two runs whose delivered events agree on bytes 3 and 4 have the same outcome: the same sends, reports and buffers |
| HciRuns.StatusIgnored | bt/hardware_mrvl.c:184-185 | any run has the same outcome when the controller answers every command with any one status byte, so a configuration it rejects throughout succeeds like any other |
| GcMacros.GetAfterSet | include/hardware/gc_hal_types.h:552-578 | reading a field after setting it gives the value cut to the field's width |
| GcMacros.SetKeepsOthers | include/hardware/gc_hal_types.h:573-578 | setting a field changes no disjoint field |
| GcMacros.SetsCommute | include/hardware/gc_hal_types.h:573-578 | sets of disjoint fields commute |
| GcMacros.LastSetWins | include/hardware/gc_hal_types.h:593-599 | a later set of the same field wins, and setting what is there changes nothing |
| GcMacros.MaskedSet | include/hardware/gc_hal_types.h:630-634 | a masked set reads back value and enable bits, all other bits being one |
| GcMacros.GetFieldValue | include/hardware/gc_hal_types.h:507-522 | as a number a field is the word divided by 2^start, mod 2^size |
| GcMacros.SetFieldValue | include/hardware/gc_hal_types.h:573-578 | as a number a field reads back the value it was set to, mod 2^size |
| GcMacros.ClearLow | include/hardware/gc_hal.h:58-65 | masking with ~(2^k - 1) subtracts the remainder by 2^k |
| GcMacros.AlignUpNp2IsLeast | include/hardware/gc_hal.h:50-54 | the remainder form is the least multiple not below the number, for any alignment |
| GcMacros.PowerOfTwoAlignment | include/hardware/gc_hal.h:57-65 | for a power of two without overflow the bit form equals the remainder form, and the base form is the greatest multiple not above the number |
| GcMacros.FormsAgree | include/hardware/gc_hal.h:50-60 | the two forms agree on all numbers iff the alignment is a power of two |

## Left out

- Symbol resolution, logging, property reading and the process-identity constructor of the shim; the forced heap mask is an arbitrary constant.
- Requests other than ALLOC, MAP and SHARE, which the shim passes on: a FREE by the client leaves its ring entries as they are.
- The real kernel: it may answer anything, but names it hands out are not in use, and `close` and `munmap` succeed. A refused ALLOC, MAP or SHARE leaves the caller's structure as it was.
- Masks and flags are numbers; a bit test is division by a power of two, and clearing the cached flag subtracts the lowest bit.
- IonShim.Shim.TryHeap: the two inner loops of the grid search are a method of their own.
- IonThreads.AnyInterleaving: an ALLOC counts as one step, the recording of a validated handle; its system calls do not touch the registries.
- `strtok`, `strstr` and `atoi` are functions on byte strings, without locale and without overflow; the terminator that cutting writes into the command at `,TIME=` shows only in the value read.
- WextScan.ComboScan: the check that the driver is started, and the ioctl that follows, are not part of this model; SSIDs are at most 32 bytes, as the guard assumes.
- BgScan.BackgroundScan: the null checks before it and the ioctl after it are not part of this model; the caller gives a buffer that is large enough, and `BgScan.SizeBound` says when 720 bytes are.
- DriverCmd.WextDriver.Command: the calls of `os_strncasecmp` and of the background-scan encoder lack arguments in the source and are modelled as in the nl80211 file; interface flags, answer texts and scan timeouts are left out.
- DriverCmd.Nl80211Driver.Command: netlink messages, answer texts, return values and the channel-list event are left out; GETPOWER's two results are an input.
- The remaining functions of the nl80211 file (P2P, WPS elements), which build text and call the command entry.
- HciConfig.VendorLibrary.ParseEvtBuf: buffers with fewer than six bytes are excluded, since the source reads all six unchecked; an event without return parameters in a larger buffer is covered.
- The header fields of a command buffer other than its data, and `bt/bt_vendor_mrvl.c`, which only dispatches.
- GcMacros.AlignUp: the sum is taken without overflow where it is compared with the remainder form.
- The thin forwarding shims, `fixsys/perfd.cpp`, the remaining Vivante headers, and all configuration files.
