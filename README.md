# Take Your Time: a Dafny model of the plugin's core

Take Your Time ("SleepToGainExperience") is a Skyrim Script Extender plugin.
Its core logic lives in `src/Main.cpp`, in three self-contained parts:

- **Save-record persistence.** `Serialization_Load`, `Serialization_Save` and
  `Serialization_Revert` maintain a fixed-size snapshot buffer. Save writes the
  buffer as one `'DATA'` record of version 1. Load walks the plugin's records
  until the stream runs out or an error is raised:
  - an unknown type or a wrong version raises the error;
  - a `'DATA'` version-1 record of the wrong length is skipped;
  - a record of the right length overwrites the buffer.

  Revert zeroes the buffer.
- **The skill-advance gate.** The hooked `PlayerCharacter::AdvanceSkill`
  forwards `(1 - percent) * points` for a skill in `[FirstSkillId,
  LastSkillId]` advanced on the player. Every other call gets `points`
  unchanged.
- **Settings normalisation.** At load time each fraction setting becomes
  `min(1, |x|)`. The sleep requirement becomes `hours / 24` days, where
  `hours` is the unsigned 32-bit integer `GetPrivateProfileIntA` returns, so
  the absolute value the code takes never changes it. The enable
  flag keeps the lowest bit of the unsigned integer read, because it is stored in a
  one-bit field.

Files:

- `RecordStream.dfy` (module `RecordStream`) models the host's serialization
  interface. A record is a `Record(tag, version, payload)`.
  - `RecordReader` is a cursor over the plugin's records. It models
    `GetNextRecordInfo` and `ReadRecordData`.
  - `RecordWriter` collects the written records. It models `OpenRecord` and
    `WriteRecordData`.

  A header's length is the number of bytes in its record, so it is taken from
  the payload.
- `Persistence.dfy` (module `Persistence`) holds the three callbacks as methods
  of the class `Snapshot`, whose `bytes` array stands for the global buffer.
  - `LoadFrom` is the specification function that `Snapshot.Load` is proved
    against.
  - `LastFitting` and `FirstRejected` are independent reference definitions.
    `LoadCharacterised` connects the load loop to them.
- `SkillGate.dfy` (module `SkillGate`) holds the gate as pure functions over
  `real`.
- `Config.dfy` (module `Config`) holds the settings clamps as pure functions
  over `real`.

In the source the buffer `myWeap` is a global pointer that is never assigned,
and the three callbacks are never registered with the host
(`src/Main.cpp:270-272`). The model gives the buffer its `SnapshotSize` bytes
and verifies the callbacks as the code states them.

## Model

| member | source | states |
|---|---|---|
| RecordStream.RecordReader.GetNextRecordInfo | src/Main.cpp:46 | reports the next record's type, version and length and advances the cursor; `found` is false exactly when the stream is exhausted, and then nothing moves |
| RecordStream.RecordReader.ReadRecordData | src/Main.cpp:52 | copies `min(length, unread)` bytes of the current record to the front of the buffer and leaves the rest of the buffer untouched |
| RecordStream.RecordWriter.OpenRecord | src/Main.cpp:31 | succeeds exactly when the host accepts a record; on success appends an empty record with the given type and version, otherwise changes nothing |
| RecordStream.RecordWriter.WriteRecordData | src/Main.cpp:32 | appends the first `length` bytes of the source to the open record only; fails and changes nothing when no record is open |
| Persistence.LoadFrom | src/Main.cpp:44-68 | the load loop ends at the end of the stream or right after the record that set the error flag, which is then a rejected record; the snapshot is the prior one or the payload of a fitting record it read |
| Persistence.LastFitting | src/Main.cpp:49-52 | reference result of a load without error: the prior snapshot or the payload of one of the fitting records |
| Persistence.FirstRejected | src/Main.cpp:46-66 | the first record with a type other than `'DATA'` or a version other than 1, and every record before it is accepted |
| Persistence.SavedRecords | src/Main.cpp:31-33 | a save writes one record exactly when the host opens it, and that record fits a later load exactly when the buffer has the snapshot size |
| Persistence.LastFittingPrepend | src/Main.cpp:49-52 | reading one more record first is the same as starting the reference definition with that record's payload, or with the prior snapshot when it does not fit |
| Persistence.LoadCharacterised | src/Main.cpp:44-68 | for every stream and prior snapshot, the load sets the error flag exactly when a rejected record exists, stops right after the first one, and leaves the payload of the last fitting record before it (or the prior snapshot); without an error it reads every record |
| Persistence.LoadErrorIffRejected | src/Main.cpp:46-66 | the error flag is set if and only if some record has an unknown type or a wrong version |
| Persistence.LoadWithoutErrorConsumesAll | src/Main.cpp:44-68 | a load without error ends only when the stream is exhausted, and the buffer then holds the last well-formed record's payload, or its prior value if there was none |
| Persistence.RejectedRecordEndsLoad | src/Main.cpp:46-66 | a rejected record after accepted ones ends the loop with the error set, and the buffer keeps exactly what the earlier records of the same load left in it |
| Persistence.UnknownTypeStops | src/Main.cpp:64-66 | a record whose type is not `'DATA'` sets the error flag, stops the loop and leaves the buffer as it was |
| Persistence.VersionMismatchStops | src/Main.cpp:59-62 | a `'DATA'` record whose version is not 1 sets the error flag, stops the loop and leaves the buffer as it was |
| Persistence.WrongLengthSkipped | src/Main.cpp:56-58 | a `'DATA'` version-1 record of the wrong length leaves the buffer unchanged, and the loop continues with the next record |
| Persistence.FittingRecordOverwrites | src/Main.cpp:49-52 | a `'DATA'` version-1 record of snapshot length replaces the whole buffer with its payload before the loop continues |
| Persistence.SaveLoadRoundTrip | src/Main.cpp:31-33 | loading what one save wrote gives back the saved buffer, without error, whatever the loader held before; if the host refused the record, the load changes nothing |
| Persistence.Snapshot.Revert | src/Main.cpp:26 | every byte of the buffer becomes zero, whatever its prior content |
| Persistence.Snapshot.Save | src/Main.cpp:28-36 | the writer's records grow by exactly the records of `SavedRecords`: one `'DATA'`/1 record holding the whole buffer when `OpenRecord` succeeds, nothing otherwise; the writer's record is open afterwards exactly when it was before or the host accepted |
| Persistence.Snapshot.Load | src/Main.cpp:37-71 | the buffer, the error flag and the reader's cursor after the loop are those of `LoadFrom`, started at the reader's cursor with the old buffer |
| Persistence.SaveThenLoad | src/Main.cpp:28-71 | running Save and then Load on what it wrote leaves the loading buffer equal to the saved one, with no error, or unchanged if the host refused to open the record |
| SkillGate.Withheld | src/Main.cpp:124-129 | a call outside the gate withholds nothing; with a fraction in [0, 1] and non-negative points, the share withheld lies between 0 and the points |
| SkillGate.ForwardedPoints | src/Main.cpp:118-132 | forwarded plus withheld equals the points given (conservation); with a fraction in [0, 1] the forwarded points lie in [0, points]; zero points forward zero |
| SkillGate.PassThrough | src/Main.cpp:131-132 | a skill id outside `[first, last]`, or an actor other than the player, forwards `points` unchanged, whatever the fraction |
| SkillGate.GatedScales | src/Main.cpp:129 | a gated call forwards `points * (1 - percent)` |
| SkillGate.ForwardedAntitoneInPercent | src/Main.cpp:129 | with fractions in [0, 1] and non-negative points, a larger fraction never forwards more |
| Config.ClampFraction | src/Main.cpp:256 | the clamped fraction lies in [0, 1], equals 1 exactly when `abs(x) >= 1`, and is `abs(x)` otherwise |
| Config.HoursToDays | src/Main.cpp:252 | for the unsigned hours read, the days value is non-negative and 24 times it is the number of hours |
| Config.LowBit | src/Main.cpp:250 | storing the unsigned integer read into the one-bit field sets the flag exactly when bit 0 of its 32-bit value (`raw & 1`) is 1 |
| Config.OddHasLowBitSet | src/Main.cpp:250 | an unsigned 32-bit value is odd exactly when its lowest bit is set, which ties the arithmetic body of `LowBit` to the bit-level store |
| Config.Normalise | src/Main.cpp:250-260 | both fraction settings lie in [0, 1], 24 times the days value is the unsigned hours read, and the flag is bit 0 of the unsigned integer read |
| Config.ClampIgnoresSign | src/Main.cpp:256-260 | the clamp does not depend on the sign; 1.5 and -2.0 both load as 1 |
| Config.GateWithNormalisedSettings | src/Main.cpp:256 | with the normalised fraction, any call with non-negative points forwards between 0 and the points, and the difference is the withheld share |
| Config.ForwardedWithFourTenths | src/Main.cpp:129 | a fraction configured as 0.4 forwards 6 of 10 points on a gated call |

## Left out

- Hooking `AdvanceSkill` through `write_vfunc` at vtable slot 0xF7 is left out. It is a raw write into the host process's memory, with no behavioural contract to state.
- Logging (`InitializeLogging`, all `logger::` calls) is left out because it is I/O. Load's `error` out-parameter stands for the flag that the source only logs.
- The messaging listener, the NiOverride interface exchange, the body-morph `QueryInterface`/`dynamic_cast`, Papyrus registration and `setBodyMorph` are left out. They are calls into host and plugin code that is not part of this model.
- Reading the INI file (`GetPrivateProfileIntA`, `GetPrivateProfileStringA`) and parsing with `strtof` are left out, because they are Win32 I/O and C library parsing. `Config.Normalise` receives the numbers they produce. The two integer keys arrive as the unsigned 32-bit values `GetPrivateProfileIntA` returns (type `u32`), so no negative integer reaches the code.
- Float rounding is not modelled. All arithmetic is over `real`, so no result is claimed bit-exact.
- The per-skill experience accumulation is left out. Its `addExperience` call is commented out and `SkillExperienceBuffer` is not part of this model. `SkillGate.Withheld` names the share that call would have received.
- The `newGame` flag is left out: it is set and never read.
- `SnapshotSize` stands for `sizeof(RE::TESObjectWEAP)`. That type's layout lives in a header that is not part of this model, and no proof depends on the value.
- The skill-id bounds `FirstSkillId`/`LastSkillId` come from a header that is not part of this model, so they are parameters of the gate. The player singleton is compared by identity (`ActorHandle`).
- The source's buffer pointer `myWeap` is never assigned, so as written each callback would dereference a null pointer. The model gives the buffer real storage instead.
- The host's reader skips any unread rest of a record when it moves to the next header. The model's cursor does the same, because every header starts a fresh record.
