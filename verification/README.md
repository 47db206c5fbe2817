# scriptcs REPL variable introspection, modelled in Dafny

This project models `ReplEngineExtensions.GetLocalVariables` from scriptcs's Roslyn engine. It is the
introspection step a REPL runs between submissions. Given a session key and the script-pack session,
it proceeds in four steps:

1. It looks up the key in the script-pack session's keyed state store.
2. If the script-pack session is null or the key is missing, it returns an empty list.
3. Otherwise it downcasts the stored object to a session state and renders each variable of its
   script state as `"{Type} {Name}"`.
4. It removes duplicate strings (LINQ `Distinct`) and returns the rest as an array.

Files:

- `wrappers.dfy`: `Option` (a null reference is `None`) and `Result` (an exception is `Failure`).
- `dedup.dfy`, module `Dedup`: LINQ's `Distinct`, modelled as "keep the first occurrence of each
  element". The module proves that the result is duplicate-free, holds the same elements as the input
  and keeps first-occurrence order. It also proves that these three facts determine the result
  uniquely.
- `repl_engine_extensions.dfy`, module `ReplEngineExtensions`: the session data and
  `GetLocalVariables`, with lemmas that tie the result to the session's variables.

Modelling choices:

- A variable is a pair of strings: its type as already rendered and its name. The store is a
  `map<string, StoredValue>` inside `Option<ScriptPackSession>`.
- The store holds arbitrary objects, so `StoredValue` has three cases:
  - `ScriptSessionState`, a session state. Its `Session` may be null (`None`).
  - `NullValue`. A C# cast of null to a reference type succeeds, so this value passes the cast.
  - `OtherValue`. For this case the cast `(SessionState<ScriptState>)` fails, and `GetLocalVariables`
    returns `Failure(InvalidCast)`.
- Dereferencing a null stored value, or a null `Session`, returns `Failure(NullReference)`.
  This stands for the `NullReferenceException` thrown on line 16.
- De-duplication follows the code: it compares the rendered strings, not (type, name) pairs. A design
  that compares pairs gives the same result whenever names contain no space, which holds for C#
  identifiers. `GetLocalVariablesByVariable` proves this.
- The order of the result is modelled as first-occurrence order. This is a modelling choice. The
  documented contract of LINQ's `Distinct` leaves the order unspecified. In practice, the .NET
  implementation streams its input and yields each element the first time it appears.

## Model

| member | source | states |
|---|---|---|
| `ReplEngineExtensions.GetLocalVariables` | src/ScriptCs.Engine.Roslyn/ReplEngineExtensions.cs:10-20 | A null script-pack session gives `Success([])`, and so does a store without the key. Failures: `InvalidCast` exactly when the stored value is not a session state and not null. `NullReference` exactly when the stored value is null or its `Session` is null. Any successful result is duplicate-free. When a session is stored, every string in the result is `Type + " " + Name` of one of its variables (soundness). Every variable's rendering occurs in the result (completeness). The result is no longer than the variable list. |
| `ReplEngineExtensions.GetLocalVariablesOrder` | src/ScriptCs.Engine.Roslyn/ReplEngineExtensions.cs:16 | The strings appear in the order in which each rendering first occurs in the session's variable list. |
| `ReplEngineExtensions.GetLocalVariablesCharacterized` | src/ScriptCs.Engine.Roslyn/ReplEngineExtensions.cs:16 | Any duplicate-free list that holds exactly the renderings, in first-occurrence order, is the result. |
| `ReplEngineExtensions.GetLocalVariablesExact` | src/ScriptCs.Engine.Roslyn/ReplEngineExtensions.cs:16 | When no two variables render alike, the result is the rendered list, unchanged. |
| `ReplEngineExtensions.GetLocalVariablesCount` | src/ScriptCs.Engine.Roslyn/ReplEngineExtensions.cs:16 | The result's length is the number of distinct renderings. |
| `ReplEngineExtensions.GetLocalVariablesByVariable` | src/ScriptCs.Engine.Roslyn/ReplEngineExtensions.cs:15-16 | When names contain no space, the result equals the renderings of the variables after de-duplication by (type, name) identity. |
| `ReplEngineExtensions.GetLocalVariablesReadsOnlyEntry` | src/ScriptCs.Engine.Roslyn/ReplEngineExtensions.cs:13-16 | The result depends only on whether the key is present and on the value stored under it. Nothing else in the store is consulted. |
| `ReplEngineExtensions.RenderAllElements` | src/ScriptCs.Engine.Roslyn/ReplEngineExtensions.cs:16 | The rendered list (`Select`) holds each variable's `"Type Name"` string and nothing else. |
| `ReplEngineExtensions.RenderRoundTrip` | src/ScriptCs.Engine.Roslyn/ReplEngineExtensions.cs:16 | A name without spaces can be recovered from `"Type Name"`: splitting at the last space gives back the variable. |
| `ReplEngineExtensions.RenderInjective` | src/ScriptCs.Engine.Roslyn/ReplEngineExtensions.cs:16 | For names without spaces, two variables render equal if and only if they are equal. |
| `ReplEngineExtensions.DedupByStringIsDedupByVariable` | src/ScriptCs.Engine.Roslyn/ReplEngineExtensions.cs:16 | For names without spaces, de-duplicating the rendered strings is the same as de-duplicating the variables and then rendering them. |
| `Dedup.Distinct` | src/ScriptCs.Engine.Roslyn/ReplEngineExtensions.cs:16 | The output of `Distinct` has no duplicates. It holds exactly the elements of its input and is no longer than the input. |
| `Dedup.DistinctFirstOccurrenceOrder` | src/ScriptCs.Engine.Roslyn/ReplEngineExtensions.cs:16 | Kept elements appear in the order of their first occurrences in the input. |
| `Dedup.DistinctCharacterized` | src/ScriptCs.Engine.Roslyn/ReplEngineExtensions.cs:16 | `Distinct` is the only duplicate-free sequence that has the input's elements in first-occurrence order. |
| `Dedup.DistinctIsIdentityIff` | src/ScriptCs.Engine.Roslyn/ReplEngineExtensions.cs:16 | `Distinct(s) == s` holds if and only if `s` has no duplicates. |
| `Dedup.DistinctIdempotent` | src/ScriptCs.Engine.Roslyn/ReplEngineExtensions.cs:16 | Applying `Distinct` twice gives the same result as applying it once. |
| `Dedup.DistinctLength` | src/ScriptCs.Engine.Roslyn/ReplEngineExtensions.cs:16 | The output length equals the number of distinct elements of the input. |

## Left out

- The `replEngine` receiver of the extension method is never used by the method, so it is not modelled.
- The Roslyn `ScriptState`/`Variables` API and how a variable's `Type` becomes text are not modelled. They belong to a foreign library, so a variable is modelled as an already-rendered (type, name) pair.
- A null `State` dictionary on a non-null script-pack session is not modelled. In C# it would throw `NullReferenceException`; the model's store is always present.
- A null `sessionKey` is not modelled. In C# `ContainsKey` would throw `ArgumentNullException`; Dafny strings are never null.
- `ToArray` is modelled as returning the sequence. Array allocation and the `ICollection<string>` view add no behaviour.
- The debug script executor is not part of this model. It lies outside the introspection step, and its tests only configure mocks. Those mocks cover compiling the pre-processed code once and emitting `script.dll`/`script.pdb` under `bin`, which is file-stream and compiler wiring.
- The following are collaborators outside the introspection step, so they are not modelled: concurrency of the shared state store, script compilation and execution, session creation and resumption, and debug artifact file I/O.
