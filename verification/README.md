# Page-replacement simulator, modelled in Dafny

The program simulates virtual-memory page replacement on a machine with
16 virtual pages (`NUM_PAGES`) and 8 physical frames (`NUM_FRAMES`). It
starts with eight pages resident, replays a fixed trace of read/write
accesses, and counts hits and misses under several replacement policies.
It exists in two versions, both modelled here:

- `simulador2.c`, the structured version, has these parts:
  - a page table (`PageEntry`: present, frame, R, M, `last_use`);
  - a frame table mirroring it;
  - a clock `tempo`;
  - two cursors, `idx_fifo` and `clock_hand`;
  - five victim-selection functions (FIFO, Second Chance, Clock, MRU, NUR) behind a function pointer;
  - one replay loop, `simular`. It can clear every R bit periodically before an access.
- `simulador.c`, the earlier version, has four self-contained simulations:
  - FIFO, Second Chance, Clock and MRU;
  - each keeps its own page array;
  - FIFO, Second Chance and Clock also keep a queue of resident pages indexed by frame, and a cursor into it;
  - MRU instead keeps a clock `tempo`. Its `frames` array is filled once by `inicializa` and never written again, and it has no cursor.

The model is a set of pure functions on immutable records, in these modules:

| module | file | contents |
|---|---|---|
| `Config` | config.dfy | the constants, the trace entry, list helpers |
| `Ring` | ring.dfy | cursor arithmetic modulo `NUM_FRAMES`, and the "distance to the first flagged frame" measure that bounds the scans |
| `Recency` | recency.dfy | the MRU search both versions share; only its starting floor differs |
| `PageTable` | pagetable.dfy | the state of `simulador2.c`, its consistency invariant, and `zeraR`, `buscaFrame`, `carregarPaginaEmFrame`, `removerPagina`, `inicializaSimulador` |
| `Policies` | policies.dfy | `choose_FIFO`, `choose_SC`, `choose_Clock`, `choose_MRU`, `choose_NUR` |
| `Engine` | engine.dfy | one iteration of `simular`, the whole replay as a recursive function (`Run`), and as a loop method (`Simulate`) |
| `Legacy` | legacy.dfy | `buscaPagina`, `inicializa` and the four simulations of `simulador.c` |
| `Scenario` | scenario.dfy | the concrete initial pages, trace and algorithm table, and what the first four accesses do |

Notes on how the source is modelled:

- The trace and the initial pages are parameters.
- Input validation does not exist in the code. Every access indexes the page table directly. The model therefore requires, as preconditions, a trace of in-range pages and eight distinct in-range initial pages.
- The unbounded `while (1)` scans of Second Chance and Clock are recursive functions, with a termination measure that proves they stop:
  - In `simulador2.c` the measure is below 2·`NUM_FRAMES` whenever a page is present.
  - In `simulador.c` every slot is occupied, so the search steps over at most `NUM_FRAMES` slots.
- `choose_SC` and `choose_Clock` visit frames in the same way. One scan models both; only the cursor they move differs.
- Eviction differs between the versions:
  - In `simulador2.c`, `removerPagina` clears R, M and the frame.
  - In `simulador.c`, eviction clears only `presente`. Stale R and M bits stay until the page is reloaded, and the reload overwrites them.
  - The model follows each file.

## Model

| member | source | states |
|---|---|---|
| `Recency.MaxScan` | simulador.c:196-203 | the MRU loop from any id on returns -1 only when no present stamp exceeds the floor; otherwise a present id whose stamp is the largest, strictly larger than that of every lower present id |
| `Recency.MostRecent` | simulador2.c:179-185 | the whole MRU loop: the present id with the largest stamp, ties to the lowest id, -1 when nothing exceeds the floor |
| `Recency.MostRecentUnique` | simulador2.c:180-185 | the search has one possible answer: any present id with the largest stamp above the floor, strictly above every lower present id's, is the one returned |
| `PageTable.Agreement` | simulador2.c:78-94 | under the invariant, frame f names page p exactly when p is present and records frame f |
| `PageTable.FullCount` | simulador2.c:120-128 | with every frame occupied, exactly `NUM_FRAMES` pages are present |
| `PageTable.ClearReferenced` | simulador2.c:55-58 | zeraR clears R of present pages only; residency, frames, M, last_use, the frame table, counters and cursors are unchanged |
| `PageTable.ClearReferencedValid` | simulador2.c:55-58 | zeraR keeps the invariant, fullness and the present set, and afterwards no page has R set |
| `PageTable.FindFrame` | simulador2.c:60-63 | buscaFrame returns -1 exactly for absent pages, and otherwise a frame whose frame-table entry names the page |
| `PageTable.LoadPage` | simulador2.c:78-85 | carregarPaginaEmFrame points the frame at the page, makes it present there with R set, M or-ed with the access type and last_use the clock; every other page is untouched |
| `PageTable.RemovePage` | simulador2.c:87-94 | removerPagina frees the victim's frame and leaves the victim absent with no frame, R and M cleared, last_use kept; other pages untouched |
| `PageTable.ReplaceValid` | simulador2.c:244-249 | removing a present page and loading an absent one into the freed frame keeps the two tables consistent and all frames occupied, and swaps exactly the victim for the new page in the present set |
| `PageTable.Blank` | simulador2.c:97-117 | the state before the initial load is consistent and has no page present: every frame is -1, every page has moldura -1 and last_use -1, counters and cursors are 0 |
| `PageTable.LoadInitial` | simulador2.c:119-128 | the initial load loop carries "frames below f loaded from the initial list, the rest blank" up to all frames |
| `PageTable.InitSimulator` | simulador2.c:96-129 | after inicializaSimulador frame f holds the f-th initial page, present there with R = 1, M = 0, last_use f+1; every other page is absent with frame -1; counters and cursors are 0; the state is consistent and full |
| `Policies.FifoScan` | simulador2.c:132-137 | the FIFO scan stops on the first occupied frame at or after the cursor, within one turn, and leaves the cursor just past it |
| `Policies.ChooseFifo` | simulador2.c:131-143 | choose_FIFO returns a present page and only moves idx_fifo; with all frames occupied it returns the page under the old cursor and advances the cursor by one |
| `Policies.SecondChanceScan` | simulador2.c:146-156 | the scan returns a present page whose R is clear, leaves the cursor one past its frame, clears R exactly on the present pages the cursor passed over, and moves at most as far as the termination measure |
| `Policies.PotentialBound` | simulador2.c:146-156 | when some page is present the scan's measure, and so its number of skipped frames, is below 2·`NUM_FRAMES` |
| `Policies.SecondChanceSparesReferenced` | simulador2.c:151-155 | a page with R set when the scan starts is taken only after a full turn has cleared its R |
| `Policies.ScanOnlyClears` | simulador2.c:150-152 | a scan changes nothing but R bits of present pages, and those it only clears |
| `Policies.ScanValid` | simulador2.c:150-152 | the page table after a scan is consistent, full when it was, and has the same present set |
| `Policies.ChooseSecondChance` | simulador2.c:145-157 | choose_SC picks the scan's victim from idx_fifo: a present page with R clear, the cursor one past its frame, residency and the frame table untouched |
| `Policies.ChooseClock` | simulador2.c:159-176 | choose_Clock: the same scan driven by clock_hand, with the same guarantees |
| `Policies.ChooseMru` | simulador2.c:178-188 | choose_MRU returns a present page whose last_use is at least every present page's, strictly above every lower-id present page's; the state is unchanged |
| `Policies.Class` | simulador2.c:196-202 | the NUR class is below 4, below 2 exactly when R is clear, and odd exactly when M is set |
| `Policies.Candidates` | simulador2.c:194-204 | candidatos[cl] holds exactly the present pages of class cl, its first entry the lowest of them |
| `Policies.NurPick` | simulador2.c:205 | the first non-empty class from i on yields a present page of minimal class, the lowest id in that class |
| `Policies.ChooseNur` | simulador2.c:190-210 | choose_NUR returns a present page whose class is at most every present page's, and the lowest id within that class; the state is unchanged |
| `Policies.Choose` | simulador2.c:244 | every policy returns a present victim and leaves the invariant, the frame table, residency, counters and all bits but R untouched, R being at most cleared |
| `Engine.Tick` | simulador2.c:221-226 | the clock advances by exactly one per iteration |
| `Engine.TickValid` | simulador2.c:224-226 | the periodic reset keeps the invariant and residency; when due, no page has R set afterwards, otherwise the page table is untouched |
| `Engine.AccessHit` | simulador2.c:232-238 | a hit counts one hit and changes only the accessed entry: R set, M or-ed with the access type, last_use the clock |
| `Engine.AccessMiss` | simulador2.c:239-252 | a miss counts one miss, replaces exactly the policy's victim by the accessed page in the present set, loads it into the victim's frame with R set, M the access type, last_use the clock, and keeps the state consistent and full; the victim is left absent with frame -1, R and M clear and last_use kept; every other page keeps the entry the policy left it, and both cursors are where the policy put them |
| `Engine.Step` | simulador2.c:220-253 | one iteration keeps the state consistent and full, advances the clock by one, and adds one hit exactly when the page was present and one miss exactly when it was not |
| `Engine.StepHit` | simulador2.c:232-238 | on a hit the frame table and the present set are unchanged; only the accessed page's entry differs from the post-reset state |
| `Engine.StepMiss` | simulador2.c:244-249 | on a miss the victim was present and the accessed page absent; the present set loses the victim and gains the page, which takes the victim's frame; the victim is left absent with frame -1, R and M clear; the frame table changes only at that frame; every other page and both cursors are as the policy left them after the tick |
| `Engine.Replay` | simulador2.c:220-253 | the loop over a trace keeps the state consistent and full and adds one to hits + misses and to the clock per access |
| `Engine.Run` | simulador2.c:213-253 | simular ends with hits + misses equal to the trace length, the clock equal to it, and exactly `NUM_FRAMES` pages present |
| `Engine.Simulate` | simulador2.c:213-253 | the imperative loop returns counters that add up to the trace length and equal those of Run |
| `Legacy.LookupPage` | simulador.c:22-26 | buscaPagina returns -1 for an absent page and the recorded moldura for every present one |
| `Legacy.LookupQueue` | simulador.c:22-26 | in a queue-based simulation buscaPagina fails exactly for pages outside the queue, and otherwise names the queue slot holding the page |
| `Legacy.ClearAll` | simulador.c:29-34 | the first loop of inicializa leaves every page absent with R, M and tempo zero and its old moldura |
| `Legacy.LoadFrom` | simulador.c:35-42 | the second loop loads each listed page into the frame of its position and leaves unlisted pages as they were |
| `Legacy.Initialize` | simulador.c:28-43 | inicializa fills framesLivres with the initial list, makes the i-th listed page present in frame i with R = 1, M = 0, tempo 0, and every other page absent with R, M, tempo cleared |
| `Legacy.InitialPresent` | simulador.c:35-42 | after inicializa the present pages are exactly the listed ones, `NUM_FRAMES` of them |
| `Legacy.InitialFrames` | simulador.c:35-42 | after inicializa the present pages sit in distinct frames, all stamped 0 |
| `Legacy.QueueStart` | simulador.c:51-52 | the queue copied from the initial list lists exactly the present pages, slot i holding the page of frame i |
| `Legacy.MruStart` | simulador.c:178-181 | simulaMRU starts with `NUM_FRAMES` present pages in distinct frames with non-negative tempo |
| `Legacy.QueueCount` | simulador.c:71-79 | the present pages are exactly the queued ones, hence `NUM_FRAMES` of them |
| `Legacy.Touch` | simulador.c:62-64 | a hit sets R and ors M with the access type, touching no other page |
| `Legacy.Evict` | simulador.c:71 | eviction only clears presente: R, M, moldura and tempo are kept |
| `Legacy.Install` | simulador.c:76-79 | a loaded page becomes present in the given frame with R = 1 and M = the access type, whatever stale bits it had |
| `Legacy.ReplaceSlot` | simulador.c:71-79 | replacing a queue slot's page by an absent page that takes the victim's frame keeps the queue exactly the present pages, and swaps victim for new page in the present set |
| `Legacy.FifoMiss` | simulador.c:66-79 | the FIFO victim is fila[posFila]; the slot written at (posFila+N-1)%N after the increment is that same slot; the new page takes the victim's frame with R = 1, M = tipo; the cursor advances by one; the victim loses only presente, keeping R, M, moldura and tempo; every other page is untouched |
| `Legacy.SecondChanceSearch` | simulador.c:109-125 | the search stops on a slot whose page has R clear, having cleared R exactly on the pages in the slots it stepped over, at most one full turn of them |
| `Legacy.SearchStepDrops` | simulador.c:111-113 | skipping a referenced candidate strictly shrinks the distance to the next page with R clear, so the loop terminates |
| `Legacy.SearchKeeps` | simulador.c:110-113 | the search changes nothing but R bits: the queue stays valid and residency, frames and stamps are unchanged |
| `Legacy.SecondChanceMiss` | simulador.c:107-125 | the victim has R clear, the new page takes its slot and frame with R = 1, M = tipo, the cursor moves one past that slot, and exactly the victim leaves the present set; the victim loses only presente; every other page keeps what the search left it, so the R bits the search cleared stay cleared |
| `Legacy.MruVictim` | simulador.c:196-203 | the MRU victim is a present page with the largest tempo, strictly larger than every lower-id present page's |
| `Legacy.MruReload` | simulador.c:204-210 | the reload frees the victim and installs the new page in its frame with R = 1, M = tipo, tempo the clock, touching no other page |
| `Legacy.MruReloadSet` | simulador.c:204-210 | the reload swaps exactly the victim for the new page in the present set, keeping its size |
| `Legacy.MruReloadValid` | simulador.c:204-210 | the reload keeps the present pages in distinct frames with non-negative tempo |
| `Legacy.MruMiss` | simulador.c:193-210 | an MRU miss evicts the most recent page, loads the new one into its frame stamped with the clock, and keeps the invariant; the victim loses only presente, and every other page is untouched |
| `Legacy.Hit` | simulador.c:186-193 | a hit counts one hit, keeps residency, queue and cursor, sets R, ors M, and in simulaMRU stamps the page with the clock |
| `Legacy.Miss` | simulador.c:65-80 | a miss in any simulation counts one miss, keeps `NUM_FRAMES` pages present and leaves the accessed page present |
| `Legacy.Step` | simulador.c:56-81 | one iteration keeps the simulation's invariant, adds one hit exactly when the page was present and one miss exactly when it was not, and on a hit leaves the present set unchanged |
| `Legacy.StepCounts` | simulador.c:60-80 | on a hit every page keeps its residency and one hit is counted; on a miss one miss is counted |
| `Legacy.Replay` | simulador.c:97-127 | the loop keeps the invariant and adds one to hits + misses per access |
| `Legacy.RunFifo` | simulador.c:45-84 | simulaFIFO ends with hits + misses equal to the trace length and exactly `NUM_FRAMES` pages present, all of them queued |
| `Legacy.RunSecondChance` | simulador.c:86-130 | simulaSegundaChance ends with hits + misses equal to the trace length and exactly `NUM_FRAMES` pages present, all of them queued |
| `Legacy.RunClock` | simulador.c:132-173 | simulaRelogio ends with hits + misses equal to the trace length and exactly `NUM_FRAMES` pages present |
| `Legacy.RunMru` | simulador.c:175-215 | simulaMRU ends with hits + misses equal to the trace length and exactly `NUM_FRAMES` pages present in distinct frames |
| `Legacy.ReplaySecondChanceClock` | simulador.c:152-168 | from the same state the Second Chance and Clock loops reach the same state over any trace; both simulations share one miss branch, since simulador.c:109-125 and 152-168 differ only in variable names, so the content of the agreement is the common start |
| `Legacy.SecondChanceClockAgree` | simulador.c:41 | simulaSegundaChance and simulaRelogio end in the same state, so with equal hit and miss counts, since fila and framesLivres both start as the initial list |
| `Legacy.MruFirstVictim` | simulador.c:40 | all pages start with tempo 0, so a miss on the very first access, before any hit has stamped a page, evicts the lowest-id initial page |
| `Scenario.Trace` | simulador2.c:14-22 | the trace pairs each access type with its page, position by position |
| `Scenario.WorkloadValid` | simulador2.c:12-22 | the compiled-in initial pages are eight distinct valid pages and the trace names only valid pages |
| `Scenario.Opening` | simulador2.c:232-249 | accesses to pages 0, 1, 2, 6 with 0, 1, 2 resident and 6 not give three hits and one miss under every policy |
| `Scenario.InitialResidency` | simulador2.c:120-128 | after the initial load pages 0, 1 and 2 are resident and page 6 is not |
| `Scenario.OpeningCounts` | simulador2.c:220-253 | under every policy the first four accesses of the trace give 3 hits and 1 miss |
| `Scenario.LegacyOpening` | simulador.c:60-79 | the same opening in any simulation of the earlier version gives three hits and one miss |
| `Scenario.LegacyOpeningCounts` | simulador.c:16-20 | in all four simulations of the earlier version the first four accesses give 3 hits and 1 miss, whatever the page array held before inicializa |

## Left out

- `main` in both files is left out. It prints banners, computes the `double` hit rate (`taxa`) and picks the best and worst algorithm: formatting and floating point, not replacement logic.
- The algorithm display name (`Algoritmo.nome`) is dropped, because only `printf` reads it.
- `logAcesso`, the `DEBUG` blocks and the `printf` of each simulation are left out because they are output only.
- `ordem_circular` in `simulador2.c` is left out because it is initialised to the identity and never read.
- The fallback paths of `choose_FIFO` (its second loop and `return 0`), `choose_MRU` (`if (vitima < 0) vitima = 0`) and `choose_NUR` (its last loop and `return 0`) are left out. They run only when no page is present. The policies instead require some present page, which every state of the replay has (all frames stay occupied).
- `choose_SC` and `choose_Clock` are modelled only when some page is present. With no page present they loop forever, and the replay never calls them in that state.
- C `int` overflow of the counters and the clock is not modelled; they are unbounded integers. With the 25-access trace no value gets near the limit.
- The uninitialised `moldura` of pages `inicializa` does not load is not modelled as garbage. It is the `moldura` of the page array passed in, which is arbitrary. It is never read for an absent page.
- The MRU clock `tempo` of `simulaMRU` is modelled as a field of the shared `Legacy.State`, so it is also present, and never advanced, in the other three simulations.
- `Legacy.State` gives `simulaMRU` a `queue` and a `cursor` as well. The queue holds its stale `frames` array, which stops listing the resident pages after the first miss. The cursor stays at 0. `simulaMRU` reads neither, `MruValid` puts no condition on them, and `MruMiss` leaves both unchanged.
- `Scenario.OpeningCounts`: only the first four accesses of the trace are evaluated; the counts of the whole 25-access run are not stated.
