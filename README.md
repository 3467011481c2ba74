# Voice pools of SoundControl

`SoundControl.cs` is a Unity sound-effect manager. Each registered sound effect
owns an `AudioClipInfo`: a pool of `maxSENum` voice slots (`SEInfo`). Every slot
sits in exactly one of two collections:

- `stockList`, the idle slots: a `SortedList` keyed by slot index;
- `playingList`, the active slots: a `List` kept in the order they were started.

There are three operations on a pool:

- The constructor creates every slot idle. Slot `i` plays at volume
  `initVolume * attenuate^i`.
- `playSE` takes the idle slot with the least index (`stockList.Values[0]`). It
  sets the slot's countdown to a tenth of the clip length and appends the slot to
  `playingList`.
- `Update` takes the frame time off every active countdown. It keeps, in order,
  the slots whose countdown is still positive and returns the others to
  `stockList`.

A `Dictionary` maps sound names to pools. `playSE` looks a name up, and `Update`
visits every pool.

The project has two modules.

- `VoicePool` (`voice_pool.dfy`) is the value-level specification.
  - A pool is `Pool(time, idle, active)`: the countdown of every slot, the set of
    idle indices, and the list of active indices.
  - `Inv` is the bookkeeping invariant:
    - every index is in range;
    - no slot is both idle and active;
    - no slot is active twice;
    - idle plus active is the pool size.
  - `Init`, `Acquire` and `Tick` are the three operations. `Tick` is written as
    the source's loop: one `SweepStep` per active slot.
  - The lemmas state what each operation does, slot by slot.
- `SoundEffects` (`sound_control.dfy`) holds the imperative model.
  - `AudioClipInfo` is a class with the fields `stockList` (a map from index to
    `SEInfo`), `playingList` (a sequence of `SEInfo`) and `clip`. It also has a
    ghost `Model: Pool` that always satisfies `Inv`.
  - `Valid()` says the two collections are exactly the views `StockOf` and
    `ListOf` of the model.
  - Each method is proved to change `Model` as the matching `VoicePool` function
    does.
  - `SoundControl` is the registry. It holds `audioClips`, a map from names to
    pools, and has the methods `Update` and `PlaySE`.

Inputs the code cannot see become parameters:

- the frame time is `dt`;
- what `Resources.Load` returns is `resource`;
- the attenuation ratio is the `attenuate` argument of the constructor.

The sound played is returned as a `Sound(clip, volume)` value instead of calling
`PlayOneShot`.

Some behaviours of the code are worth stating explicitly:

- The two-argument constructor leaves `maxSENum` at 10 but creates no slot, so
  such a pool never plays anything.
- `playSE` returns `true` with every slot busy, even though no sound starts.
- Registering a name twice is an error: `Dictionary.Add` throws.
- The active list keeps the order in which the voices were started.
- A missing clip makes `playSE` throw at the length read. This is the `ClipNotLoaded`
  outcome: no pool changes, and the load is retried on the next call.

## Model

| member | source | states |
|---|---|---|
| VoicePool.Inv | SoundControl.cs:73-74 | The bookkeeping of the two collections: every idle and every active index is a slot of the pool, no slot is both idle and active, no slot is active twice, and idle plus active is the pool size. Init, Acquire and Tick keep it. |
| VoicePool.Init | SoundControl.cs:99-104 | A fresh pool of n slots satisfies Inv, has every slot 0 .. n-1 idle with countdown 0, and no active slot. |
| VoicePool.Min | SoundControl.cs:168 | The least key of a non-empty sorted list is one of its keys and is at most every key (`Values[0]`). |
| VoicePool.Acquire | SoundControl.cs:165-173 | Taking a voice keeps the bookkeeping invariant. |
| VoicePool.AcquireSpec | SoundControl.cs:165-173 | A slot is taken iff some slot is idle. The slot taken is the least idle index. It leaves the idle set, is appended to the active list and gets countdown len. No other countdown changes. With no idle slot the pool is unchanged. |
| VoicePool.AcquireLeast | SoundControl.cs:165-173 | For the least idle slot i, acquiring is exactly the pool with i's countdown set to len, i removed from idle and i appended to active. |
| VoicePool.Survivors | SoundControl.cs:138-139 | The kept list holds exactly the active slots whose countdown minus dt is still positive, and it has no duplicates when the active list has none. |
| VoicePool.SweepStep | SoundControl.cs:136-141 | One pass of the inner loop for slot j: its countdown loses dt, then j is appended to the kept list if the countdown is still positive and added to the idle set otherwise. SweepStepTime, SweepStepKept and SweepStepIdle state each part. |
| VoicePool.SweepFrom | SoundControl.cs:135-142 | The inner `foreach` over the active list, one SweepStep per slot in list order, starting from an empty kept list. SweepTime, SweepKept, SweepIdle and SweepCount state its result. |
| VoicePool.Tick | SoundControl.cs:133-143 | One pool's part of `Update`: the whole sweep, whose kept list replaces the active list. TickSpec, TickPreservesInv and TickExpiryRule state its result. |
| VoicePool.SweepTime | SoundControl.cs:135-137 | The expiry loop takes dt off the countdown of every active slot and leaves every other countdown alone. |
| VoicePool.SweepKept | SoundControl.cs:135-139 | The list the loop builds is exactly the survivors, in their original order. |
| VoicePool.SweepIdle | SoundControl.cs:135-141 | The loop adds exactly the expired active slots to the idle set. |
| VoicePool.SweepCount | SoundControl.cs:135-143 | No slot is lost or duplicated: idle plus kept after the loop equals idle plus active before it. |
| VoicePool.TickSpec | SoundControl.cs:133-143 | One frame of a pool: every active countdown drops by dt and the other countdowns stay. The new active list is the survivors in order. The new idle set is the old one plus the expired slots. |
| VoicePool.TickPreservesInv | SoundControl.cs:133-143 | A frame keeps the bookkeeping invariant. |
| VoicePool.TickExpiryRule | SoundControl.cs:133-143 | Slot by slot, an active slot stays active iff its new countdown is positive, and is idle otherwise. An idle slot stays idle with its countdown untouched. |
| VoicePool.Partition | SoundControl.cs:73-74 | Under the invariant every slot is in exactly one of the two collections. |
| VoicePool.Volume | SoundControl.cs:102 | Slot i plays at initVolume * attenuate^i. VolumesNonIncreasing states how it changes with i. |
| VoicePool.VolumesNonIncreasing | SoundControl.cs:102 | Slot 0 plays at initVolume, and a higher slot index is never louder when the ratio lies in [0, 1]. |
| VoicePool.ThreeVoicesScenario | SoundControl.cs:165-180 | Three plays on a fresh three-slot pool take slots 0, 1 and 2 in that order. A fourth finds no idle slot and changes nothing. |
| VoicePool.ExpiryScenario | SoundControl.cs:133-143 | A voice started for 1.0 is still active with 0.4 left after a frame of 0.6, and is idle again after a further frame of 0.5. |
| SoundEffects.Entry | SoundControl.cs:57-68 | The SEInfo of slot i: index i, the slot's countdown and its volume Volume(i). |
| SoundEffects.StockOf | SoundControl.cs:73 | The stockList that holds the idle slots: its keys are exactly the idle set, and key k holds Entry(k). |
| SoundEffects.ListOf | SoundControl.cs:74 | The playingList that holds the active slots: entry j is Entry of the j-th active index, in list order. |
| SoundEffects.InitViews | SoundControl.cs:99-104 | A stock holding exactly the keys 0 .. n-1, each with countdown 0 and volume initVolume * attenuate^k, is the stock of a fresh n-slot pool. |
| SoundEffects.FreshStock | SoundControl.cs:73-74 | A fresh pool's stock holds exactly the slots 0 .. n-1, each once, with countdown 0 and its volume, and its playing list is empty. |
| SoundEffects.ViewsIdentity | SoundControl.cs:57-68 | Every entry of either collection carries its own slot's index and volume, with the slot's countdown: index and volume never change, only curTime does. |
| SoundEffects.AcquireViews | SoundControl.cs:168-173 | Taking the entry with the least key, giving it countdown len and moving it to the playing list is the model's Acquire of that slot. |
| SoundEffects.ExpireStepViews | SoundControl.cs:136-141 | One pass of the inner loop keeps the collections equal to the views of the sweep so far. A positive countdown appends the slot to the new list. Otherwise the slot, absent from the stock, is added to it. |
| SoundEffects.CreateStock | SoundControl.cs:100-104 | The constructor's loop builds the stock of a fresh pool of max(maxSENum, 0) slots, and no key is added twice. |
| SoundEffects.AudioClipInfo.Bare | SoundControl.cs:83-88 | The two-argument constructor gives maxSENum 10, initVolume 1.0, attenuate 0.0, no clip and no slot at all. |
| SoundEffects.AudioClipInfo.constructor | SoundControl.cs:90-105 | The four-argument constructor stores its settings, loads no clip and starts from a fresh pool of max(maxSENum, 0) idle slots, with an empty playing list. |
| SoundEffects.AudioClipInfo.Acquire | SoundControl.cs:165-177 | The pool's new model is Acquire of the old one with countdown len. The volume returned is the taken slot's volume, or none when every slot is active. |
| SoundEffects.AudioClipInfo.Play | SoundControl.cs:151-180 | Loads the clip only when none is loaded. With no clip the outcome is ClipNotLoaded and the pool is unchanged. Otherwise it acquires for a tenth of the clip length and returns true, with the sound at the taken slot's volume if a slot was free. |
| SoundEffects.AudioClipInfo.Expire | SoundControl.cs:133-143 | The pool's new model is Tick of the old one, and the collections remain its views. |
| SoundEffects.SoundControl.constructor | SoundControl.cs:24 | The registry starts empty. |
| SoundEffects.SoundControl.Register | SoundControl.cs:24 | Adding a name not yet present maps it to its pool and keeps every other entry. |
| SoundEffects.SoundControl.Update | SoundControl.cs:127-145 | Every registered pool advances by exactly one Tick of dt, whatever order the pools are visited in. Clips and the registry are unchanged. |
| SoundEffects.SoundControl.PlaySE | SoundControl.cs:146-181 | An unknown name returns false and changes no pool. A known name does what Play does to its own pool, and every other pool is unchanged. |

## Left out

- `calcAttenuateRate` and `NewtonMethod.run` (SoundControl.cs:107-124, 190 onwards)
  are floating-point Newton iteration. The ratio they compute is the constructor's
  `attenuate` argument.
- VoicePool.VolumesNonIncreasing: assumes a ratio in [0, 1], which the one configuration in the
  source (SoundControl.cs:43: 10 voices, `initVolume` 2.0) cannot produce. The ratio p
  is meant to solve 1 + p + ... + p^9 = 1 / initVolume = 0.5 (SoundControl.cs:113). For
  p >= 0 that sum is at least 1, so any root is negative, and the slot volumes then
  alternate in sign. A run that does not converge returns its last iterate
  (SoundControl.cs:194-205). The lemma is not a statement about that configuration.
- Floating point in general: `float` countdowns and volumes are Dafny `real`s, with
  no rounding. `Mathf.Pow` at the integral exponents used here is `Pow`.
- The singleton `Instance`, the `GameObject` and the `AudioSource`
  (SoundControl.cs:45-56, 157-161) are engine plumbing.
- `Resources.Load` is the `resource` parameter of `PlaySE`.
- `PlayOneShot` is the `Sound` value that `PlaySE` returns.
- `Time.deltaTime` is the `dt` parameter of `Update`.
- `StopSE` only calls `audioSource.Stop()` and touches no pool, so it is not modelled.
- The commented registration example in the private constructor (SoundControl.cs:30-44)
  is configuration. `Register` models the `Dictionary.Add` it would call, for a new pool.
- SoundEffects.SoundControl.Register: each pool object is registered under one name only (it requires
  the pool not to be in the registry yet), and `Valid` keeps different names on different
  pools. `Dictionary.Add` has no such rule. The source would tick a pool registered under
  two names once per name in every frame, and the model does not capture that. The only
  registration in the source passes a freshly created pool.
- The order in which `Update` visits the pools (dictionary order) is left open: the
  model picks pools in any order and proves the same result for all of them.
- `SEInfo` is a value, not an object. The source moves the same object between the
  two collections. Aliasing is not modelled, so a write through another reference to
  a slot would not be visible here.
- `resourceName` and `name` are stored but play no part in the bookkeeping.
