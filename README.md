# Controlled environment loader (`@expo/env`)

A Dafny model of the environment loader of Expo's `@expo/env` package. The loader reads
variable definitions from a mode-dependent, ordered list of `.env*` files at a project root.
It merges them so that the first file to define a key wins. It never takes a key the user had
already set before the loader first ran.

The model has four modules:

- `Wrappers` (`wrappers.dfy`): `Option` and `Result`.
- `EnvFiles` (`env_files.dfy`): `getFiles`, the candidate file list for an execution mode.
  - An unset mode (absent or empty) gives `.env.local`, `.env`.
  - `development` and `production` give `.env.M.local`, `.env.local`, `.env.M`, `.env`.
  - `test` gives `.env.test.local`, `.env.test`, `.env`.
  - Any other mode throws.
- `EnvMerge` (`env_merge.dfy`): the merge loop of `_getForce`.
  - The files at the project root are a `Disk`: a map from candidate name to what loading that
    file yields. A name that is not a key is a missing file.
  - A load yields one of four `FileOutcome`s: no parsed variables, the parsed and expanded
    variables, a thrown `Error` (reported and skipped), or a thrown non-`Error` (rethrown).
  - `AbsorbFile` (the inner loop, key by key) is proved equal to the function `Absorb`, and
    `MergeCandidates` (the outer loop) is proved equal to the specification function `MergeOutcome`.
  - `MergeOutcome` is in turn related to an independent reference definition,
    `FirstDefinition` (the value of the earliest file that defines a key): a successful merge
    holds exactly the keys outside the baseline that have a `FirstDefinition`, each with that
    value (`MergedIsFirstDefinition`).
- `EnvLoader` (`env_loader.dfy`): `createControlledEnvironment` as the class
  `ControlledEnvironment`.
  - Its closure variables are fields: `userDefinedEnvironment` (the baseline snapshot, captured
    once) and `memoEnvironment` (the memoised result).
  - Its closures are the methods `GetForce`, `Get` and `Load`.
  - The process environment (`process.env`) is an explicit `ProcessEnv` object that `Load`
    reassigns. The mode is read from it (`NODE_ENV`) at each `GetForce` call.

What the code does, in three points the model keeps:

- In `test` mode the candidates are `.env.test.local`, `.env.test` and `.env`. It is `.env.local`
  that is never read (`packages/@expo/env/src/env.ts:134-142`).
- `load` overlays the result onto the current process environment, and the result wins on a
  shared key (`{ ...process.env, ...env }`, `packages/@expo/env/src/env.ts:102`).
  - The result never holds a key of the baseline snapshot, so the overlay itself never replaces
    a baseline key (`OverlayKeepsUserValues`). The dotenv library's own writes, made before this
    line runs, are outside the model (see "Left out").
  - A key added to the process environment after the snapshot was taken can be overwritten by
    `load`. `Load` states the overlay exactly: `process.vars == old(process.vars) + env`.
- An unrecognised mode throws a plain `Error` whose message names the mode
  (`packages/@expo/env/src/env.ts:123-127`). The model carries the mode as
  `InvalidModeError(mode)`, and out of `_getForce` as `LoadError.InvalidMode(mode)`.

The merge uses the corrected fold `Absorb`, not the code as written, for keys named like
`Object.prototype` members (see "## Findings").

## Model

| member | source | states |
|---|---|---|
| `EnvFiles.KeepTruthy` | packages/@expo/env/src/env.ts:134-142 | `filter(Boolean)`: the result has no empty name and is no longer than the slot list, and when the last slot is a name it is the last element; which names are kept, and in what order, is stated by `KeepTruthyKeepsSetSlots` and `KeepTruthyAppend` |
| `EnvFiles.GetFiles` | packages/@expo/env/src/env.ts:113-145 | throws exactly when the mode is set and is not `development`, `test` or `production`, and the error carries that mode; otherwise the list ends with `.env` and holds no empty name |
| `EnvFiles.NoModeFiles` | packages/@expo/env/src/env.ts:114-132 | an absent or empty mode gives exactly `[".env.local", ".env"]` and does not throw |
| `EnvFiles.KeepTruthyAppend` | packages/@expo/env/src/env.ts:142 | `filter(Boolean)` distributes over concatenation, so the kept names stay in slot order |
| `EnvFiles.KeepTruthyKeepsSetSlots` | packages/@expo/env/src/env.ts:142 | a name is in the filtered list if and only if some slot holds it (a `false` slot or an empty name is dropped) |
| `EnvFiles.KeepTruthyFour` | packages/@expo/env/src/env.ts:134-142 | on the four-slot candidate literal whose first, third and fourth slots are names, `filter(Boolean)` keeps those in order and keeps the second slot only when it is a name |
| `EnvFiles.DevelopmentOrProductionFiles` | packages/@expo/env/src/env.ts:134-144 | for `development` or `production` the list is exactly `.env.M.local`, `.env.local`, `.env.M`, `.env`, in that order |
| `EnvFiles.TestFiles` | packages/@expo/env/src/env.ts:136-142 | for `test` the list is exactly `.env.test.local`, `.env.test`, `.env`, and `.env.local` is not in it |
| `EnvFiles.LocalFileUnlessTest` | packages/@expo/env/src/env.ts:129-144 | for every accepted mode, `.env.local` is a candidate if and only if the mode is not `test` |
| `EnvMerge.MergeOutcome` | packages/@expo/env/src/env.ts:38-78 | the `forEach` fold over the candidates; when it throws, the error names a candidate whose load threw a non-`Error` value |
| `EnvMerge.Absorb` | packages/@expo/env/src/env.ts:56-65 | one file folded in: the keys become the old keys plus the file's keys outside the baseline; old entries keep their values and new entries take the file's values |
| `EnvMerge.AbsorbFile` | packages/@expo/env/src/env.ts:56-65 | the key-by-key loop over one file's variables computes exactly `Absorb` |
| `EnvMerge.MergeCandidates` | packages/@expo/env/src/env.ts:30-84 | the loop over the candidates computes exactly `MergeOutcome`: files in order, missing and failed files skipped, a non-`Error` throw propagated |
| `EnvMerge.FirstDefinitionComesFromAFile` | packages/@expo/env/src/env.ts:56-63 | every earliest definition is the value some candidate file gives the key |
| `EnvMerge.FirstDefinitionSnoc` | packages/@expo/env/src/env.ts:38 | a file appended after the others supplies a key's value only when no earlier file defines the key |
| `EnvMerge.FirstDefinitionAt` | packages/@expo/env/src/env.ts:38 | a file that defines a key, with no earlier file defining it, gives the earliest definition |
| `EnvMerge.OnlyNonErrorThrowsAbort` | packages/@expo/env/src/env.ts:66-77 | the merge returns a result if and only if no candidate's load throws a non-`Error` value |
| `EnvMerge.MergedIsFirstDefinition` | packages/@expo/env/src/env.ts:38-65 | a key is in the merged result if and only if it is outside the baseline and some file defines it; its value is the earliest defining file's |
| `EnvMerge.BaselineNeverOverridden` | packages/@expo/env/src/env.ts:56-64 | no key of the baseline snapshot is ever in the merged result, whatever the files hold |
| `EnvMerge.EarliestFileWins` | packages/@expo/env/src/env.ts:57-63 | a key outside the baseline that file i defines, and no earlier file does, takes file i's value; later files never overwrite it |
| `EnvMerge.PrefixIsKept` | packages/@expo/env/src/env.ts:57-63 | every entry merged from the first n files is in the final result with the same value |
| `EnvMerge.FailureIsFinal` | packages/@expo/env/src/env.ts:74-76 | once a file's load has thrown a non-`Error` value, the files after it do not change the outcome |
| `EnvMerge.SameLoadsSameOutcome` | packages/@expo/env/src/env.ts:38-52 | two disks on which every candidate loads alike give the same outcome: only the candidates are read |
| `EnvMerge.FailedFileActsMissing` | packages/@expo/env/src/env.ts:40-42 | a file that yields no parsed variables, or whose load throws an `Error`, merges exactly as a missing file does |
| `EnvMerge.NoFilesNoVariables` | packages/@expo/env/src/env.ts:38-42 | for any candidate list, an empty disk merges to the empty map and nothing is thrown |
| `EnvMerge.AbsorbAsWritten` | packages/@expo/env/src/env.ts:56-64 | one file folded in as the `typeof ... === 'undefined'` tests behave on plain objects: names inherited from `Object.prototype` are never taken; old entries keep their values and a newly taken key gets the file's value |
| `EnvMerge.AsWrittenDropsInheritedName` | packages/@expo/env/src/env.ts:57-63 | a file defining `toString` over an empty baseline: the code as written drops the key, while `Absorb` keeps it |
| `EnvLoader.LoadOutcome` | packages/@expo/env/src/env.ts:28-84 | what `_getForce` returns or throws: the invalid-mode error exactly for a set mode outside the three, and a returned result never holds a baseline key |
| `EnvLoader.InvalidModeThrows` | packages/@expo/env/src/env.ts:123-127 | `_getForce` with a set mode other than the three throws the invalid-mode error, whatever the files hold |
| `EnvLoader.NoFilesEmptyResult` | packages/@expo/env/src/env.ts:28-84 | with no candidate file on disk, `_getForce` in any accepted mode, unset included, returns the empty map and throws nothing |
| `EnvLoader.ProductionOverridesDefault` | packages/@expo/env/src/env.ts:38-64 | `.env` with `A=1` and `.env.production` with `A=2` in mode `production` give exactly `{A: "2"}` |
| `EnvLoader.ProductionMerge` | packages/@expo/env/src/env.ts:38-64 | the merge step of that scenario: over the four `production` candidates the two files merge to exactly `{A: "2"}` |
| `EnvLoader.TestModeIgnoresLocal` | packages/@expo/env/src/env.ts:136-142 | in mode `test`, the contents or absence of `.env.local` never change the result |
| `EnvLoader.OverlayKeepsUserValues` | packages/@expo/env/src/env.ts:100-103 | overlaying a result onto a process environment keeps the value of every baseline key it holds |
| `EnvLoader.ProcessEnv.constructor` | packages/@expo/env/src/env.ts:24-28 | `process.env` as an explicit object holding the given variables |
| `EnvLoader.ControlledEnvironment.constructor` | packages/@expo/env/src/env.ts:16-20 | a new loader has no baseline snapshot and no memo |
| `EnvLoader.ControlledEnvironment.GetForce` | packages/@expo/env/src/env.ts:22-85 | the baseline is captured from the process environment on the first call only; the result is the merge, for the current `NODE_ENV` (`ModeOf` of the process environment), against that baseline |
| `EnvLoader.ControlledEnvironment.Get` | packages/@expo/env/src/env.ts:88-97 | without `force`, an existing memo is returned and nothing changes; otherwise it recomputes and a returned result becomes the new memo |
| `EnvLoader.ControlledEnvironment.Load` | packages/@expo/env/src/env.ts:100-104 | after `get`, the process environment becomes the old one overlaid with the result: result keys take the result's values, every other key keeps its value; a throw leaves it unchanged |
| `EnvLoader.MemoisedUntilForced` | packages/@expo/env/src/env.ts:92-96 | two unforced `get` calls give the same result even when the files change between them; a forced call sees the new files |

## Left out

- dotenv parsing and `dotenv-expand` substitution (`packages/@expo/env/src/env.ts:44-51`) are library calls. Each file's load is an input `FileOutcome`: no parsed variables, parsed variables, or a thrown value.
- The library call's own writes into `process.env` during `_getForce` (`override: true`, lines 45-50) are not visible in this code, and the model leaves them out. Those writes can change a baseline key in `process.env` before the overlay at line 102 runs, so `Load`'s "every other key keeps its value" and `OverlayKeepsUserValues` hold only in their absence. Writes through `load` (line 102) are modelled: a `NODE_ENV` that a file sets, when the baseline lacks it, reaches the process environment and the mode of later calls.
- `fs.existsSync`, `path.resolve` and the project root are not modelled. They are file-system I/O. `Disk` describes the files at the one project root, with absence meaning a missing file.
- `console.error`, `chalk`, `debug` and `IS_DEBUG` are left out as diagnostics without behaviour. This includes the `loadedEnvFiles` list, which only feeds the "nothing loaded" debug line.
- `EnvLoader.ControlledEnvironment.GetForce`: a rethrown non-`Error` value is modelled as `LoadError.Rethrown(file)`, without the thrown value itself.
- `EnvMerge.MergeCandidates`: folds each file with the corrected `Absorb`. A key named like an `Object.prototype` member (`toString`, `constructor`, ...) is taken here, while the code as written skips it; that behaviour is modelled only by `EnvMerge.AbsorbAsWritten`.
- `EnvLoader.ControlledEnvironment.GetForce`: returns the merge built with the corrected `Absorb`, so for a file defining `toString` its result holds that key where the code as written returns without it. The same holds for `Get` and `Load`, which use its result.
- `EnvLoader.ControlledEnvironment.Get`: values are not objects. The memoised object that `get` returns is shared with the loader in the source; the model does not capture aliasing through it.
- `EnvMerge.AbsorbFile` takes the file's keys in an arbitrary order rather than `Object.keys` order. The result does not depend on the order, because each key is visited once.
- Environment values are modelled as strings. The `undefined` values that the TypeScript types allow do not arise from parsing.

## Findings

| source | as written | input that shows it | evidently intended | confidence | as-written member | corrected member |
|---|---|---|---|---|---|---|
| packages/@expo/env/src/env.ts:57-63 | `typeof parsed[key] === 'undefined'` and `typeof userDefinedEnvironment?.[key] === 'undefined'` test plain objects, which inherit `toString`, `constructor`, `valueOf` and other `Object.prototype` members; such a key always reads as already defined | `.env` containing `toString=1`, nothing set before: the merged result lacks `toString` | a key is skipped only when an earlier file or the baseline actually defines it | medium, not executed | `EnvMerge.AsWrittenDropsInheritedName` | `EnvMerge.Absorb` |
