# Verified models of freedom-metal drivers

freedom-metal is a bare-metal driver library for RISC-V cores. This project models the parts of it
that are algorithms or protocols rather than register plumbing, and proves what they promise. Device
registers and control registers are fields of a class (or components of a state); the environment -
other harts, a ticking counter, the PLL lock bit, an SPI slave - takes arbitrary steps between the
accesses of the driver. `dafny verify dfyconfig.toml` checks everything.

| file | models | main results |
|---|---|---|
| `Barrier.dfy` | the start-up barrier over the MSIP words | safety over all interleavings and rounds; no lost store; no deadlock; exactly 4(N-1) working steps a round; every call returns |
| `Lock.dfy` | the spin lock with backoff | mutual exclusion over all histories; the exact condition under which giving is safe; capped exponential backoff |
| `PllTable.dfy`, `Pll.dfy` | the FE310-G000 PLL | table consistency; closest row; rate read back within 42 Hz; the PLL is never touched while the core runs from it |
| `Pwm.dfy` | the PWM frequency search | least prescale; accuracy; the search is a fixed point of itself, and so is the rate-change callback; exactly when its callback nodes are registered once, over all runs |
| `Pmp.dfy`, `PmpDriver.dfy` | physical memory protection | locks hold over all runs; what initialisation records; accepted NAPOT regions are aligned to the grain; exactly when a region is read back as set |
| `Clint.dfy` | the 64-bit timer behind 32-bit accesses | no torn read; no spurious interrupt |
| `Callbacks.dfy` | the clock's callback lists | in-place append and traversal; call order; appending is sound exactly for new nodes; what a registration does to the other list |
| `SpiTraffic.dfy`, `Spi.dfy` | SPI transfers over a transmit and a receive queue | the exact traffic on the wire in every interleaving; exactly which bytes can leave late; how long time-outs are felt |
| `Remapper.dfy`, `Plic.dfy` | batched enable bits | batches refine single operations; affinity calls as set operations |
| `Trace.dfy` | the trace byte packer | conservation of bytes |
| `MulDiv.dfy` | `muldiv` | exact for all inputs if and only if (den-1)*num fits 64 bits |
| `Arith.dfy`, `Bits.dfy` | shared facts on floor division, powers of two and bits | |

## Where the code and its promise differ

The model follows the code. Each of these is proved, with the exact condition under which the code
does what it is meant to do.

- `for_each_metal_affinity` (metal/interrupt.h:50-51) never looks at the bit it is at, so an affinity
  call also reaches every lower context whose bit is clear. It reaches exactly the chosen contexts if
  and only if mask/2 + 1 is a power of two (`Plic.VisitedIsChosenIff`, `Plic.HoleInMask`).
- `metal_pmp_init` scans the address of all ones for a 0 before it looks at the lock bit. If region 0
  is locked in NAPOT mode there is none to find (`Pmp.InitScansAllOnesIff`).
- `metal_pmp_set_region` has the same scan: for a NAPOT region at pmpaddr 0xFFFFFFFF there is no 0 to find,
  and an address that ends in 29 ones makes it shift too far (`Pmp.ScanEndsIff`,
  `PmpDriver.Hart.SetRegionCall`).
- With a locked top-of-range region 1 the address of region 0 is frozen, and the granularity recorded
  is right if and only if the lowest visible bit of that address is 1 (`Pmp.InitExactIff`,
  `Pmp.FrozenAddressExample`); it is never finer than the hardware's (`Pmp.GrainForever`).
- Initialisation is optional, and records nothing if region 0 is locked. Until a granularity is recorded,
  regions that the hardware cannot do are accepted and come out larger (`Pmp.ReadBackIff`,
  `Pmp.UninitialisedExample`).
- On hardware with an 8-byte grain `metal_pmp_set_region` can mistake an address whose lowest bit the
  current mode hides for the one wanted, and not write it (`Pmp.ReadBackIff`, `Pmp.HiddenBitIff`, `Pmp.HiddenBitExample`); initialising does not
  cure it (`Pmp.InitKeepsHiddenBit`).
- The PMP range check lets region number `regions` through; such a call can succeed, and does nothing
  (`Pmp.OneRegionTooMany`).
- PWM leaves the search with prescale 16 when 15 is not enough, and then the achieved frequency is too
  low (`Pwm.AccuracyIff`); it is 0 exactly for 1 Hz (`Pwm.StoresZeroIff`). The scale is ORed into PWMCFG,
  so the field is right only if no other bit was set in it (`Pwm.ScaleFieldIff`).
- PWM registers its callback nodes whenever it finds no frequency stored, and enabling the device stores
  none. A set_freq after enabling a second time therefore registers nodes that are on the lists already,
  and the next rate change never ends (`Pwm.RegisteredOnceIff`, `Pwm.ReenablingRegistersAgain`,
  `Pwm.OneHertzRegistersAgain`, `Callbacks.Append`).
- Setting a clock below the stored PWM frequency makes the rate-change callback divide by 0
  (`Pwm.Pwm.PostRateChange`).
- Registering a callback node that is already on the list, as I2C does on every baud change
  (src/drivers/sifive_i2c0.c:135-143), makes the node point at itself; no list starts at the head any
  more (`Callbacks.Append`). A node registered for before and after a rate change cuts the list it was on
  first off behind itself (`Callbacks.Clock.RegisterPost`).
- An SPI time-out leaves a reply behind for good. Every later transfer takes its replies one place late for
  each earlier time-out (`SpiTraffic.OwedCount`, `SpiTraffic.RepliesAreLate`), and since a stale reply ends
  the wait for a fresh one, its bytes can leave after a mode switch or after the release of the chip
  select (`SpiTraffic.ByteIsRightIff`, `SpiTraffic.RightAfterSessionIff`, `SpiTraffic.StaleReplyExample`).
- PWM feeds the achieved frequency back at a rate change, not the one requested, so the errors of successive
  changes add up, always upwards (`Pwm.ErrorsOnlyGrow`, `Pwm.ThereAndBack`).
- `muldiv` asks in its comment for num*den to fit 64 bits; (den-1)*num is the exact bound
  (`MulDiv.ExactIff`).
- The trace packer corrupts the next byte when it is given a character wider than a byte
  (`Trace.Adds`, `Trace.WideCharacterCorrupts`).
- A lock given back by a hart that does not hold it can end up with two holders
  (`Lock.GiveKeepsInvIff`, `Lock.UndisciplinedGiveBreaksExclusion`).

## Model

| member | source | states |
|---|---|---|
| Barrier.NextKeepsInv | src/synchronize_harts.c:44-63 | one access of any hart keeps the relation between program counters, MSIP words, and the numbers of rounds entered and left |
| Barrier.RunKeepsInv | src/synchronize_harts.c:44-63 | that relation holds after every interleaving |
| Barrier.Safety | src/synchronize_harts.c:44-63 | for any N, any schedule and any number of rounds: no hart has left more rounds than any other has entered, and no two harts are more than one round apart |
| Barrier.StoresAreNeverLost | src/synchronize_harts.c:52-62 | hart 0 clears only a word that is 1 and polled; a word is set only when 0; a cleared word stays 0 until its own hart leaves; nobody else changes a word |
| Barrier.AllOutside | src/synchronize_harts.c:44-63 | whenever all harts are between calls they have done the same number of rounds and all MSIP words are 0 |
| Barrier.Progress | src/synchronize_harts.c:46-62 | while some hart has not left round k and none is ahead of it, a hart that has not left it has a step that changes the state |
| Barrier.WorkStep | src/synchronize_harts.c:46-62 | every step that is neither a fruitless poll nor a call adds exactly 1 to the total work, all others add nothing |
| Barrier.RoundCost | src/synchronize_harts.c:46-62 | going from k to k' completed rounds takes exactly 4(N-1)(k'-k) such steps, whatever the schedule |
| Barrier.KRounds | src/synchronize_harts.c:46-62 | k calls by each hart take at most 4(N-1)k working steps, and are complete exactly when they have taken that many |
| Barrier.System.WaitForWord | src/synchronize_harts.c:47-48 | hart 0's busy wait on one word ends under a fair scheduler, at the next word or at the clearing loop |
| Barrier.System.SynchronizeHart0 | src/synchronize_harts.c:44-54 | the call on hart 0 returns, one round further, with every hart having entered that round; all steps are steps of the protocol |
| Barrier.System.SynchronizeHart | src/synchronize_harts.c:55-62 | the call on any other hart returns, one round further, with every hart having entered that round |
| Lock.MutualExclusion | metal/lock.h:78-132 | after any history in which harts give only what they hold, at most one hart holds the lock and the word is 1 exactly when one does |
| Lock.GiveKeepsInvIff | metal/lock.h:126-132 | a give keeps the lock sound if and only if its caller holds the lock or nobody does |
| Lock.UndisciplinedGiveBreaksExclusion | metal/lock.h:126-132 | a history in which a hart gives another's lock back ends with two holders |
| Lock.SwapOutcome | metal/lock.h:86-103 | a swap succeeds if and only if nobody holds the lock; a failed swap changes neither the word nor another hart, and the hart then backs off for the capped power of two |
| Lock.Backoff | metal/lock.h:83-103 | the delay after the k-th failure in a row is 2^(k-1) turns and the value kept for the next one 2^k, both capped at 256, in every reachable state |
| Lock.SpinsOut | metal/lock.h:96-103 | whatever the others do, a hart that backs off for t turns takes exactly t turns before it swaps again, with twice the delay up to 256 |
| Lock.System.TakeLock | metal/lock.h:78-105 | under a fair scheduler the take loop ends, with the caller the only holder and the word 1 |
| Lock.System.GiveLock | metal/lock.h:126-132 | giving frees the lock: word 0 and no holder |
| PllTable.EveryRowIsOk | src/drivers/sifive_fe310-g000_pll.c:45-124 | each of the 68 rows satisfies multiplier/divisor = 2(f+1)/((r+1) 2^q outdiv), fits its fields, loses at most 42 Hz, and overflows nothing |
| PllTable.EveryInputHasARow | src/drivers/sifive_fe310-g000_pll.c:45-124 | every input from 6 to 48 MHz is in the range of some row |
| Pll.FindClosestConfig | src/drivers/sifive_fe310-g000_pll.c:253-273 | the loop returns -1 exactly when no row is valid, and otherwise a row no further from the request than any valid row before it in the table and closer than any after it |
| Pll.PredictionMeans | src/drivers/sifive_fe310-g000_pll.c:140-147 | a row is valid exactly for inputs in its range, and predicts ref*multiplier/divisor rounded down |
| Pll.ClosestIsUnique | src/drivers/sifive_fe310-g000_pll.c:253-273 | that description determines the row |
| Pll.PredictionInRange | src/drivers/sifive_fe310-g000_pll.c:140-147 | every valid prediction is between 1 and 384000000 and its distance from the request is less than LONG_MAX |
| Pll.NoOverflow | src/drivers/sifive_fe310-g000_pll.c:146-238 | neither the prediction nor the div-mul-div stages overflow 32 bits for a valid row |
| Pll.DivideFirst | src/drivers/sifive_fe310-g000_pll.c:228-242 | dividing before multiplying loses at most (a-1)*mult/v rounded up against one multiplication and division |
| Pll.ReadBackBound | src/drivers/sifive_fe310-g000_pll.c:228-242 | for every row and valid input the rate computed from the fields is 0 to 42 Hz below the predicted rate |
| Pll.CfgFields | src/drivers/sifive_fe310-g000_pll.c:291-313 | after configuration the R, F and Q fields read back the row, the bypass is off, and all other bits are untouched |
| Pll.DivFields | src/drivers/sifive_fe310-g000_pll.c:300-311 | after configuration the divider is bypassed exactly for rows with d < 0 and its field holds d, or 1 for those; all other bits are untouched |
| Pll.RateOfRow | src/drivers/sifive_fe310-g000_pll.c:193-243 | get_rate_hz of registers that hold a row is the row's three stages |
| Pll.SafeEverywhere | src/drivers/sifive_fe310-g000_pll.c:175-383 | a safe log is safe at each of its accesses: with PLL_SEL 1 no protected field changes, and PLL_SEL is set only when bypassed or locked since the last change |
| Pll.SafeMeans | src/drivers/sifive_fe310-g000_pll.c:175-383 | field by field: with PLL_SEL 1 no write changes R, F, Q, REFSEL or BYPASS or goes to the divider; PLL_SEL is set only with BYPASS set or after a read that found the lock bit set, with nothing but harmless accesses in between |
| Pll.Prci.ConfigurePll | src/drivers/sifive_fe310-g000_pll.c:289-342 | every access is safe, the registers end up holding the row, and the lock was read as 1 after the last change |
| Pll.Prci.WaitForLock | src/drivers/sifive_fe310-g000_pll.c:339-341 | the lock loop ends, changes nothing, and has read the lock as 1 |
| Pll.Prci.GetRateHz | src/drivers/sifive_fe310-g000_pll.c:193-243 | reading the rate is safe and leaves every field alone |
| Pll.RateWithoutPll | src/drivers/sifive_fe310-g000_pll.c:211-229 | with PLL_SEL 0 the rate is that of the internal oscillator; with the bypass on it is that of the clock REFSEL selects; with Q 0 it is -1 |
| Pll.Prci.SetRateHz | src/drivers/sifive_fe310-g000_pll.c:344-386 | every access is safe; for a request of 75% (rounded down) to 125% of the reference the rate read back is the reference; outside that, for a 6 to 48 MHz reference, it misses the request by at most 42 Hz more than any valid row would |
| Pll.Prci.PllInit | src/drivers/sifive_fe310-g000_pll.c:175-187 | the same for the initialisation, from any register contents, with the external oscillator as reference when there is one |
| Pll.EndToEnd | src/drivers/sifive_fe310-g000_pll.c:344-386 | for a 6 to 48 MHz reference outside the bypass window the achieved rate misses the request by at most 42 Hz more than any row of the table would |
| Pll.SomeRowIsValid | src/drivers/sifive_fe310-g000_pll.c:253-273 | such a reference always has a valid row |
| Pll.WindowMeans | src/drivers/sifive_fe310-g000_pll.c:366-367 | the bypass window in terms of the two rates: 3*ref <= 4*rate + 3 and 4*rate <= 5*ref |
| Pll.AchievedMeans | src/drivers/sifive_fe310-g000_pll.c:344-386 | what set_rate_hz achieves, stated by the two rates and the table alone |
| Pwm.Pwm.Search | src/drivers/sifive_pwm0.c:161-165 | the do-while loop finds the least prescale whose count fits, and leaves with 16 exactly when 15 is not enough; the count is 0 exactly when the request is above the clock rate |
| Pwm.FitsIff | src/drivers/sifive_pwm0.c:161-165 | some prescale up to 15 fits if and only if 15 does |
| Pwm.FitsMeans | src/drivers/sifive_pwm0.c:163-164 | a prescale p fits if and only if the clock rate is less than (max_count+1) * 2^p * request |
| Pwm.SearchMeans | src/drivers/sifive_pwm0.c:161-168 | the count is clock/(2^min(p,15)*request) and the frequency clock/(2^p*count), both rounded down |
| Pwm.CountHalves | src/drivers/sifive_pwm0.c:163-163 | one more prescale step halves the count, rounding down, although both divisions round |
| Pwm.RoundTrip | src/drivers/sifive_pwm0.c:163-167 | count and frequency determine each other: f <= f', (f'-f)*count < f, and f' gives the same count |
| Pwm.AccuracyIff | src/drivers/sifive_pwm0.c:161-168 | the achieved frequency is at least the request if and only if a prescale fits, and then (f'-f)*count < f |
| Pwm.DividesByZeroIff | src/drivers/sifive_pwm0.c:161-167 | the divisor of the last division is 0 if and only if the request is above the clock rate |
| Pwm.StoresZeroIff | src/drivers/sifive_pwm0.c:161-167 | the stored frequency is 0 if and only if 1 Hz was asked for and does not fit, that is, at a clock of at least (max_count+1)*2^15 |
| Pwm.SamePrescale | src/drivers/sifive_pwm0.c:161-165 | with max_count+1 even, a request with the same count at the chosen prescale is given the same prescale |
| Pwm.FixedPoint | src/drivers/sifive_pwm0.c:161-168 | searching again with the achieved frequency yields the same prescale, count and frequency |
| Pwm.Pwm.Enable | src/drivers/sifive_pwm0.c:102-108 | max_count becomes 2^width - 1, frequency, count and PWMCFG become 0, everything else stays, the registration of the callbacks included |
| Pwm.Pwm.SetFreq | src/drivers/sifive_pwm0.c:133-182 | for every request: the whole new state of driver and registers; nothing changed for a bad channel; a division by 0, after the registration, exactly for a request of 0 or above the clock rate |
| Pwm.Pwm.SetDuty | src/drivers/sifive_pwm0.c:184-212 | the compare register is that percentage of the count, rounded down, the channel's phase bit is the one asked for, and nothing else changes; or nothing at all for channel 0, a bad channel or a duty above 100 |
| Pwm.CompareMeans | src/drivers/sifive_pwm0.c:32-32 | a compare value c satisfies 100c <= duty*count < 100(c+1) unless the product wraps |
| Pwm.PhaseMeans | src/drivers/sifive_pwm0.c:197-204 | the channel's bit of PWMCFG is 1 if and only if it is phase correct, and no other bit changes |
| Pwm.ChannelBits | src/drivers/sifive_pwm0.c:22-22 | the channels have bits 16 to 31 of PWMCFG, in order |
| Pwm.Pwm.PostRateChange | src/drivers/sifive_pwm0.c:57-79 | for every new rate: the stored frequency is set again; every channel with a duty gets that percentage of the new count, rounded down, and every other keeps its register; a division by 0 exactly if the rate is below the stored frequency; nothing if no frequency is stored |
| Pwm.SetFreqSettles | src/drivers/sifive_pwm0.c:161-172 | after a fitting set_freq, fields and registers agree with the stored frequency |
| Pwm.RateChangeIsIdempotent | src/drivers/sifive_pwm0.c:57-79 | at an unchanged clock the first callback only refreshes duty registers and a second one changes nothing |
| Pwm.RateChangeRaisesIff | src/drivers/sifive_pwm0.c:66-68 | a rate change lowers the stored frequency if and only if that frequency no longer fits |
| Pwm.ErrorsOnlyGrow | src/drivers/sifive_pwm0.c:66-68 | over any fitting rate changes the stored frequency is never below the request and never goes down |
| Pwm.ThereAndBack | src/drivers/sifive_pwm0.c:66-68 | a clock that changes and changes back takes a request for 30 Hz from 33 to 100 |
| Pwm.ScaleFieldIff | src/drivers/sifive_pwm0.c:172-172 | the scale field holds the chosen prescale if and only if one fits and no other bit was set in the field; the bits above it are untouched |
| Pwm.CallEffect | src/drivers/sifive_pwm0.c:57-212 | one call of any kind registers exactly if it is an accepted set_freq that finds frequency 0; afterwards the frequency is 0 exactly if the call forgot it, or it was 0 and the call is no accepted set_freq |
| Pwm.RegistrationCount | src/drivers/sifive_pwm0.c:147-159 | over any run of enable, set_freq, set_duty and rate changes the registrations grow by the number of accepted set_freq calls that find frequency 0 |
| Pwm.StoredIff | src/drivers/sifive_pwm0.c:105-167 | after any run frequency 0 is stored if and only if none was set, or the last call to forget it was followed by no accepted set_freq |
| Pwm.RegisteredOnceIff | src/drivers/sifive_pwm0.c:105-167 | in any run the nodes are registered at most once if and only if no accepted set_freq follows an enable, or an unfitting 1 Hz request or rate change at 1 Hz, that comes at or after an accepted set_freq |
| Pwm.ReenablingRegistersAgain | src/drivers/sifive_pwm0.c:102-159 | enable, set_freq, enable, set_freq registers the same nodes twice, for every request and clock rate |
| Pwm.OneHertzRegistersAgain | src/drivers/sifive_pwm0.c:147-167 | so do two 1 Hz requests at a clock of at least (max_count+1)*2^15 |
| Pmp.SetRegionFrame | src/pmp.c:109-259 | a call changes at most its own region, and nothing if it fails or the region is locked or absent |
| Pmp.SetRegionCode | src/pmp.c:109-149 | on an existing region the call succeeds if and only if the region is unlocked and the one asked for is not too small; 4 means locked, 3 too small, and the latter is checked first |
| Pmp.SettersAre | src/pmp.c:386-398 | set_address is set_region with the configuration read; every setter refuses numbers above `regions` |
| Pmp.SettersSet | src/pmp.c:366-508 | a successful lock locks, each permission setter changes its permission and no other, set_address keeps the configuration and set_address_mode all but the mode |
| Pmp.SettersCode | src/pmp.c:366-508 | on a locked region only locking succeeds, and nothing changes; on an unlocked one that is off or top-of-range locking and the permission setters always do |
| Pmp.SetKeepsLocks | src/pmp.c:366-508 | every setter keeps locked entries, and addresses frozen by a locked top-of-range successor |
| Pmp.InitKeepsLocks | src/pmp.c:77-107 | so does the initialisation |
| Pmp.InitClears | src/pmp.c:77-106 | the initialisation switches every unlocked region off without permissions, reading as address 0 unless a locked successor freezes it |
| Pmp.LockedForever | src/pmp.c:77-508 | over any sequence of calls a locked region keeps configuration and address, and a locked top-of-range region the address below it |
| Pmp.OneRegionTooMany | src/pmp.c:122-138 | only numbers above `regions` are refused as such; a call on region number `regions` never changes anything, and succeeds exactly if it passes the granularity checks, whatever the configuration |
| Pmp.InitRecords | src/pmp.c:94-106 | the granularity recorded: none if region 0 is locked, exactly 2^(G+2) if its address can be written, else what the frozen address shows |
| Pmp.InitExactIff | src/pmp.c:94-106 | with region 0 unlocked exactly 2^(G+2) is recorded if and only if its address is not frozen, or bit G of the frozen address is 1 |
| Pmp.FrozenAddressExample | src/pmp.c:94-106 | two calls lead to a locked top-of-range region 1 that makes the next initialisation record 32 bytes on 4-byte hardware |
| Pmp.OnesShowGrain | src/pmp.c:94-103 | all ones written and read back in OFF mode are detected as 2^(G+2) |
| Pmp.InitScansAllOnesIff | src/pmp.c:54-60 | the initialisation scans the all-ones address, which has no 0, if and only if region 0 is locked in NAPOT mode |
| Pmp.InitScans | src/pmp.c:77-107 | its scans go wrong in that case, or if region 0 is unlocked with an address frozen at one that ends in 30 zeros, and in no other |
| Pmp.ScanEndsIff | src/pmp.c:54-63 | the scan of set_region finds a 0 if and only if the address is not all ones, and its shift fits if and only if the address does not end in 29 ones |
| Pmp.DetectScanFitsIff | src/pmp.c:29-42 | the shift of the granularity detection fits if and only if the address is 0 or does not end in 30 zeros |
| Pmp.GrainForever | src/pmp.c:77-138 | once region 0 was unlocked at an initialisation, the recorded granularity is at least the hardware's after any further calls |
| Pmp.AcceptedNapot | src/pmp.c:133-138 | an accepted NAPOT address ends in at least G-1 ones |
| Pmp.NapotRegion | src/pmp.c:133-138 | an accepted NAPOT region matches exactly the aligned power-of-two range of its size, whose base and size are multiples of the grain |
| Pmp.ReadBackIff | src/pmp.c:146-310 | get_region returns what was set, if and only if the address can be shown in the mode asked for and no hidden bit made the driver skip the write; with or without a recorded granularity |
| Pmp.RefusesUnrepresentable | src/pmp.c:127-138 | once the grain is recorded, every NA4 or NAPOT address accepted can be shown |
| Pmp.UninitialisedExample | src/pmp.c:127-138 | without an initialisation, on hardware with a 4096-byte grain, asking for 8 bytes at address 0 succeeds and yields 4096 |
| Pmp.HiddenBitExample | src/pmp.c:153-153 | with an 8-byte grain, after two ordinary calls, a successful call yields a 16-byte region instead of the 8-byte one asked for |
| Pmp.StoredIsLastWritten | src/pmp.c:77-204 | over any run, with a grain of at most 8 bytes, the address a region stores is the last one really written to it |
| Pmp.HiddenBitIff | src/pmp.c:146-204 | a hidden bit is in the way if and only if the region is off or top-of-range, reads as the NAPOT address asked for, and the last address really written to it was odd |
| Pmp.InitKeepsHiddenBit | src/pmp.c:90-92 | the initialisation leaves a hidden bit in every region but 0 |
| Pmp.PinnedKeepsAddress | src/pmp.c:151-204 | with a frozen address a successful call sets the configuration, as far as the hardware has it, and leaves the stored address |
| PmpDriver.ByteRoundTrip | src/pmp.c:8-9 | converting a configuration to its byte and back is the identity |
| PmpDriver.ByteLayout | metal/pmp.h:42-62 | R, W and X in bits 0 to 2, the mode in bits 3 and 4, the lock in bit 7 |
| PmpDriver.BytePositions | src/pmp.c:209-211 | entry 4n+k has bits 8k to 8k+7 of register n |
| PmpDriver.ByteCleared | src/pmp.c:209-214 | clearing with the shifted mask zeroes one byte of the register and keeps the other three |
| PmpDriver.ByteSet | src/pmp.c:210-216 | setting the shifted bits ORs them into one byte and keeps the other three |
| PmpDriver.Hart.Replaced | src/pmp.c:206-233 | clear then set replaces an unlocked byte and leaves a locked one, as the hardware accepts bytes |
| PmpDriver.Hart.ReplaceByte | src/pmp.c:206-233 | clear then set on the packed register changes that one entry of the table, locked or unlocked neighbours included |
| PmpDriver.Hart.GetRegionCall | src/pmp.c:261-364 | the unpacked configuration and visible address, or error 2 |
| PmpDriver.Hart.SetRegionCall | src/pmp.c:109-259 | return code and new register contents are those of the specification Pmp.SetRegion; a bad shift, with nothing written, exactly for a NAPOT address that ends in 29 ones |
| PmpDriver.Hart.SetCall | src/pmp.c:366-508 | the same for lock, set_address, set_address_mode and the permission setters |
| PmpDriver.Hart.InitCall | src/pmp.c:77-107 | the initialisation loop and the granularity detection do what Pmp.Init specifies, or end in a bad shift exactly in the two cases of Pmp.InitScans, with the state they leave |
| PmpDriver.DetectGranularity | src/pmp.c:29-42 | the scan ends and yields 2^(lowest one + 2), or all ones for address 0, or shifts too far exactly if the lowest one is at 30 or above |
| PmpDriver.PmpaddrGranularity | src/pmp.c:54-63 | the scan ends and yields 2^(lowest zero + 3), or shifts too far exactly if the lowest zero is at 29 or above |
| Clint.Timer.MtimeGet | src/drivers/riscv_clint0.c:13-30 | the value returned is mtime at the instant the low word was read; the passes are at most 1 plus the carries into the high word |
| Clint.Timer.SuccessiveReads | src/drivers/riscv_clint0.c:13-30 | two reads in a row never go backwards |
| Clint.Timer.MtimecmpSet | src/drivers/riscv_clint0.c:32-55 | at no instant is the interrupt pending unless mtime has reached the old or the new value; the three values in force are given; the new value is in force afterwards |
| Callbacks.Append | metal/clock.h:61-79 | a new node turns list s into s + [cb]; a node already on the list ends up pointing at itself; the result is a list if and only if the node was new |
| Callbacks.ListIsDistinct | metal/clock.h:48-56 | a list that ends passes no node twice |
| Callbacks.ListIsUnique | metal/clock.h:48-56 | the nodes of a list are determined by its head |
| Callbacks.SelfLoopIsNoList | metal/clock.h:70-76 | from a head that reaches a node pointing at itself, no finite list starts |
| Callbacks.CallsEach | metal/clock.h:49-56 | a walk makes one call for each node, in list order, with the node's callback and argument |
| Callbacks.CutAfter | metal/clock.h:61-79 | a list one of whose nodes is made to end it is cut off after that node, and is whole if and only if the node was last |
| Callbacks.Clock.RegisterPre | metal/clock.h:144-149 | for any node: the pre-change list gains it at its end if and only if it was not on it; the post-change list survives if and only if the node is not on it, or last, and is otherwise cut off after the node |
| Callbacks.Clock.RegisterPost | metal/clock.h:157-162 | the same with the lists exchanged |
| Callbacks.Clock.CallAll | metal/clock.h:49-56 | the walk ends, and adds exactly one call for each node to what happened, the i-th with the callback and argument of the i-th node |
| Callbacks.Clock.SetRateHz | metal/clock.h:128-136 | one call for each pre-change node in order, then the rate, then one for each post-change node in order, and nothing else |
| Spi.Controller.ConfigureSpi | src/drivers/sifive_spi0.c:55-138 | every register write of the configuration in its order, whatever leaves in between; afterwards the bus is the one configured; an unknown protocol is refused after the first write |
| Spi.Controller.ModeSwitch | src/drivers/sifive_spi0.c:140-160 | the two writes of a mode switch at its stage, after which the bus is that of the next byte; nothing at the other stage |
| Spi.Controller.Exchange | src/drivers/sifive_spi0.c:278-308 | one byte is stored into a queue with room and one reply taken in order, or none is there after more than a tick and the wait is given up; both waits end |
| Spi.Controller.Phase | src/drivers/sifive_spi0.c:185-211 | a byte loop exchanges its bytes one by one, or stops at the first without a reply and releases the select |
| Spi.Controller.Transfer | src/drivers/sifive_spi0.c:162-327 | for every interleaving with the controller: on success exactly len bytes, or cmd+addr+dummy if that is more, are stored, those of the transmit buffer in order or zeros, and as many replies taken into the receive buffer in order; both exits restore automatic select; with no reply owed before, exactly these bytes are on the wire, each on its bus |
| SpiTraffic.SwitchBus | src/drivers/sifive_spi0.c:213-273 | the two mode switches give every byte of every phase the wires its position calls for |
| SpiTraffic.BusByPhase | src/drivers/sifive_spi0.c:55-160 | the wires of each phase under each multi-wire mode, and all other settings, as configured |
| SpiTraffic.LogEffect | src/drivers/sifive_spi0.c:185-324 | the driver part of any interleaving decides what is stored, taken and selected; frames leave in order, on buses that were selected |
| SpiTraffic.ByteEffect | src/drivers/sifive_spi0.c:278-314 | while byte i is exchanged, whatever leaves does so on its bus or the one before, and byte i itself, if it leaves, on its own |
| SpiTraffic.EveryTransfer | src/drivers/sifive_spi0.c:162-327 | in every interleaving, with d replies owed at the start: a byte for which d more were exchanged is on the wire, and every byte left on the bus of one of the d bytes after it or, if fewer were exchanged, after the release |
| SpiTraffic.CleanTransfer | src/drivers/sifive_spi0.c:162-327 | with no reply owed: the bytes exchanged are on the wire in order, each on its bus with the select held; a finished transfer leaves both queues empty; of the byte that timed out nothing is promised |
| SpiTraffic.LateTransfer | src/drivers/sifive_spi0.c:313-324 | a run exists in which every byte leaves as late as that allows, the last ones after the release |
| SpiTraffic.ByteIsRightIff | src/drivers/sifive_spi0.c:213-324 | byte k is on its bus in every interleaving if and only if d more bytes were exchanged after it and the last of these uses the same wires |
| SpiTraffic.TransferIsRightIff | src/drivers/sifive_spi0.c:162-327 | a finished transfer is right in every interleaving if and only if no reply was owed when it began |
| SpiTraffic.StaleReplyExample | src/drivers/sifive_spi0.c:213-324 | with one stale reply a command byte stored under single leaves under quad, and the last byte after the release |
| SpiTraffic.OwedCount | src/drivers/sifive_spi0.c:300-306 | over any calls the replies owed grow by one with each call that returns 1, and never shrink |
| SpiTraffic.RightAfterSessionIff | src/drivers/sifive_spi0.c:162-327 | after any calls from an idle controller, a transfer is right in every interleaving if and only if none of them timed out |
| SpiTraffic.RepliesAreLate | src/drivers/sifive_spi0.c:298-313 | the reply put at index i belongs to the byte stored as many bytes earlier as calls have timed out; to byte i if and only if none has |
| Remapper.EnableAllBit | src/drivers/sifive_remapper2.c:35-47 | enabling entries one by one sets exactly their bits |
| Remapper.DisableAllBit | src/drivers/sifive_remapper2.c:49-61 | disabling entries one by one clears exactly their bits |
| Remapper.BatchEnable | src/drivers/sifive_remapper2.c:63-83 | merging the collected bitmap once equals enabling one by one, duplicates included |
| Remapper.BatchDisable | src/drivers/sifive_remapper2.c:85-105 | the same for disabling |
| Remapper.EnableIsUnion | src/drivers/sifive_remapper2.c:63-83 | as sets of entries: the enabled set becomes its union with the indices |
| Remapper.DisableIsDifference | src/drivers/sifive_remapper2.c:85-105 | as sets of entries: the indices are taken out |
| Remapper.EveryBit | src/drivers/sifive_remapper2.c:63-105 | the same bit by bit |
| Remapper.LastWins | src/drivers/sifive_remapper2.c:178-200 | of several settings of one entry the last wins, and other entries keep theirs |
| Remapper.Device.EnableRemap | src/drivers/sifive_remapper2.c:35-47 | bit idx mod 32 of register idx / 32 is set and no other bit changes, with a key write directly before |
| Remapper.Device.DisableRemap | src/drivers/sifive_remapper2.c:49-61 | the same for disabling |
| Remapper.Device.Collect | src/drivers/sifive_remapper2.c:66-72 | the local bitmap is the one that enabling the entries from zero would give |
| Remapper.Device.EnableRemaps | src/drivers/sifive_remapper2.c:63-83 | exactly the bits of the indices are added, as by the fold of the single operation; each register is written once, directly after a key write |
| Remapper.Device.DisableRemaps | src/drivers/sifive_remapper2.c:85-105 | the same for disabling |
| Remapper.Device.SetValid | src/drivers/sifive_remapper2.c:118-129 | sets one register, or refuses a bad index without any write |
| Remapper.Device.SetRemap | src/drivers/sifive_remapper2.c:178-190 | both address registers of the entry, each write directly after a key write |
| Remapper.Device.SetRemaps | src/drivers/sifive_remapper2.c:192-200 | the fold of the single setting |
| Plic.VisitedIsChosenIff | metal/interrupt.h:50-51 | the loop macro visits every chosen context, and only those if and only if mask/2 + 1 is a power of two |
| Plic.HoleInMask | metal/interrupt.h:50-51 | a mask for context 2 alone also visits context 1 |
| Plic.Plic.Enable | src/drivers/riscv_plic0.c:85-103 | exactly one (context, source) pair is added or removed |
| Plic.Plic.PairsMean | src/drivers/riscv_plic0.c:92-101 | source i of a context is bit i mod 32 of its word i / 32 |
| Plic.Plic.SetPriority | src/drivers/riscv_plic0.c:58-72 | sets one priority below the maximum, or refuses |
| Plic.Plic.AffinitySwitch | src/drivers/riscv_plic0.c:221-265 | the mask-shifting loop ends and switches the source in exactly the visited contexts; bad sources are refused with all ones |
| Plic.Plic.Init | src/drivers/riscv_plic0.c:123-163 | the first call empties the enabled set of every parent context, clears thresholds, priorities and the interrupt tables, and initialises, registers with and enables every parent in order; later calls change nothing |
| Plic.HookupsMeans | src/drivers/riscv_plic0.c:135-159 | each parent is initialised, its line registered without a handler and then with the dispatching one, and enabled last |
| Trace.Adds | src/drivers/sifive_trace.c:37-69 | a character adds its low byte to what is written and waiting, and the buffer stays sound if and only if no other bit of it lands there |
| Trace.Conservation | src/drivers/sifive_trace.c:37-69 | for every stream of bytes the decoded writes plus at most three waiting bytes are the stream, and none wait after a newline (10) or carriage return (13) |
| Trace.FlushBytes | src/drivers/sifive_trace.c:50-62 | the partial writes carry exactly the waiting bytes, in order |
| Trace.LittleEndian | src/drivers/sifive_trace.c:19-35 | the bytes of a write are its digits to the base 256, the low one first |
| Trace.WideCharacterCorrupts | src/drivers/sifive_trace.c:41-41 | a wider character changes the byte that follows it |
| Trace.Driver.Putc | src/drivers/sifive_trace.c:37-69 | returns its argument; writes a word on the fourth byte, and at 10 or 13 a byte, a halfword, or a halfword and a byte, and otherwise only counts; moves the driver to the specified next state |
| MulDiv.SplitIsExact | gloss/sys_times.c:7-19 | the two partial quotients add up to floor(v*num/den) |
| MulDiv.ExactIff | gloss/sys_times.c:26-29 | the 64-bit result is floor(v*num/den) modulo 2^64 for every v if and only if (den-1)*num < 2^64 |
| MulDiv.Monotone | gloss/sys_times.c:51-59 | before truncation the conversion is monotone, and so is the result until it wraps |

## Left out

- Weak memory ordering and fences: every register access is sequentially consistent.
- Unbounded hardware waits: the PLL locks, the SPI transmitter drains and replies after finitely
  many polls, and the scheduler of the barrier and the lock is fair. The 4-tick wait before the PLL
  lock test (src/drivers/sifive_fe310-g000_pll.c:315-337) has no effect on the registers and is not modelled.
- A PLL rate or reference for which the C code overflows a long: excluded by preconditions (`RateInRange`,
  five times the reference at most LONG_MAX).
- What follows a division by 0 or a shift that C leaves undefined: the methods of PWM and PMP report it and stop.
- A PWM device is enabled before anything else is asked of it; before that its max_count is 0.
- The RV64 branch of the PMP driver, whose mask is built with an int shift (src/pmp.c:236-253).
- PMP permission combinations the hardware reserves, and the two padding bits of a configuration; the
  address that a call on region 16 of a 16-region hart leaves uninitialised is taken to be 0.
- Pmp.SetRegion, Pmp.Set and Pmp.Init go on as if the scan had ended where the C code shifts too far;
  the methods of PmpDriver say when it does.
- The same retry loop for mcycle (src/drivers/riscv_cpu.c:623-634) and the performance counters
  (src/hpm.c:270-274): same shape as Clint.Timer.MtimeGet.
- Lock initialisation (metal/lock.h:48-68), which only chooses between error codes.
- Plic.Plic.AffinitySwitch: source numbers are not negative; the int comparison of the C code
  (src/drivers/riscv_plic0.c:229, 252) lets a negative one through, to registers before the enable words.
- SpiTraffic.LateTransfer: its run, and with it the "only if" of SpiTraffic.ByteIsRightIff, needs a transmit
  queue with room for one byte more than replies are owed; the logs bound no queue, the methods of Spi the
  transmit queue.
- The depth of the SPI receive queue, beyond which the hardware would drop replies. Baud rate and its rate-change callbacks are left out too.
- The PWM trigger, stop and interrupt bits, and the pin multiplexing of all drivers.
- What the parent controllers do with the PLIC's calls, claim and complete, registering handlers, and the
  affinity threshold calls of the PLIC.
- Generated machine headers: bases, parents, widths and counts are parameters.
- I2C, UART, GPIO, RTC, watchdog, cache and bus-error drivers, CLIC level fields, the C library stubs.
