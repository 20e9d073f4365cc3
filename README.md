# Workflow document core, modelled in Dafny

This project models `src/program/workflow.rs` of ollama-workflows, in two parts.

- The **external-memory normaliser** (`deserialize_external_memory`). It is the field hook
  that reads the optional `external_memory` field of a workflow document. The field is a
  loosely typed JSON value. The hook turns it into an optional map from memory keys (`ID`)
  to `MemoryInputType`, which is either one `Entry` or a `Page` (an ordered stack) of
  entries. An `Entry` is either raw text (`String`) or a JSON object carried unchanged
  (`Json`). Any value of another shape fails the whole field. A string stays as written,
  and a page keeps array order.
- The **`Workflow` container**. It holds the configuration, the optional seeded memory, the
  tasks, the steps (edges) and the return value. It offers positional step lookup,
  first-match lookups by `Edge.source` and `Task.id`, and mutable access to the tasks.

Files:

- `wrappers.dfy`: `Option` and `Result`.
- `json.dfy`: the JSON value. It has the six kinds of section 3 of RFC 8259. Numbers are an
  opaque tag. An object is the list of its members as written. `Collapse` gives the members
  the parser's map keeps.
- `memory_types.dfy`: `ID`, `Entry` and `MemoryInputType`.
- `external_memory.dfy`: the normaliser. The specification functions are `AsOptional`,
  `ClassifyItems`, `ClassifyValue`, `InsertAll` and `Normalised`. The imperative method
  `DeserializeExternalMemory` has the source's two nested loops and early returns, and is
  proved equal to `Normalised`. The lemmas state the normaliser's properties.
- `workflow.dfy`: `Task`, `Edge`, the generic first-match search `FindFirst`, and the class
  `Workflow`.

Modelling decisions:

- Both `return Err` sites in the source raise the same error message. They are one error
  value here, `InvalidEntryFormat`. The "Expected a map" failure is `ExpectedMap`.
- A JSON object is the sequence of `(key, value)` members as the document writes them, so a
  key may repeat. The JSON parser builds a map by inserting those members in order, so only
  the last member with each key survives, and the normaliser's loop sees only that map.
  `JsonModel.Collapse` models this step: it keeps the last member per key. `Normalised` and
  `DeserializeExternalMemory` iterate over the collapsed members. An earlier member that is
  overwritten is never classified. So `{"k": 1, "k": "x"}` is accepted, with `k` holding the
  string. The order in which the map's members are visited is not observable: the result is a
  map, and every failure is the same error.
- Input `None` stands for an absent field. The `default` attribute at line 61 stores `None`
  for it without calling the hook. A `null` field does reach the hook: at line 14,
  `Option::deserialize` turns it into `None`, and line 53 returns `Ok(None)`. `AsOptional`
  models both cases: `None` and `Some(JNull)` both become no value, and both give
  `Ok(None)`.
- `Workflow` has no mutator for `config`, `steps` or `return_value`, so they are `const`
  fields. `tasks` is a `var`, because the source hands out mutable access to it.
  `externalMemory` is also a `var`, because it is a public field in the source. Every method
  changes only `tasks`, as its `modifies this`tasks` frame says.
- `get_tasks_by_id_mut` returns a mutable reference, and the caller then changes the task
  through it. `UpdateTaskById` models that as a caller-supplied `edit: Task -> Task`, which
  is applied in place to the first task with the id. `get_tasks_mut` becomes `SetTasks`,
  which installs whatever task list the caller produces.

## Model

| member | source | states |
|---|---|---|
| `ExternalMemory.ClassifyItems` | src/program/workflow.rs:25-34 | A page is built exactly when every array element is a string or an object. Then it has one entry per element, in array order: element i becomes `String` of its text when it is a string, and `Json` of itself when it is an object. Otherwise the error is `InvalidEntryFormat`. |
| `ExternalMemory.ClassifyValue` | src/program/workflow.rs:24-48 | A value under a key is accepted exactly when it is a string, an object, or an array of strings and objects. A string `s` becomes `Entry(String(s))` unchanged, and an object `v` becomes `Entry(Json(v))`. An array becomes a `Page` of the same length whose entries match the elements position by position. Anything else, including a nested array inside an array, fails with `InvalidEntryFormat`. |
| `ExternalMemory.InsertAll` | src/program/workflow.rs:21-49 | Inserting the members in order can fail only with `InvalidEntryFormat`. |
| `ExternalMemory.InsertAllOkIff` | src/program/workflow.rs:23-49 | The insertion loop succeeds if and only if every member's value has an accepted shape. |
| `ExternalMemory.InsertAllKeys` | src/program/workflow.rs:21-23 | On success, the map's key set equals the set of keys the members name: one entry per key. |
| `ExternalMemory.InsertAllLastWins` | src/program/workflow.rs:35-45 | On success, each key maps to the classified value of the last member with that key, so a later duplicate overwrites an earlier one. |
| `ExternalMemory.AsOptional` | src/program/workflow.rs:14 | The result is no value exactly when the field is absent or an explicit `null`. An absent field is stored as `None` by the `default` attribute at line 61, without calling the hook. A `null` field becomes `None` through `Option::deserialize` at line 14. Any other present value is passed on unchanged. |
| `JsonModel.Collapse` | src/program/workflow.rs:17-23 | The map the normaliser iterates has the object's members with no key repeated. It has the same key set as the members as written. It keeps every member that is the last with its key, and holds nothing else. |
| `JsonModel.CollapseKeepsDistinct` | src/program/workflow.rs:17-23 | An object whose keys are already distinct reaches the loop unchanged, in order. |
| `ExternalMemory.AbsentStaysAbsent` | src/program/workflow.rs:52-53 | An absent field gives `None`, because the `default` attribute at line 61 stores it without calling the hook. A `null` field is turned into `None` at line 14, and lines 52-53 return `Ok(None)`. Either way the result is `None`, never an empty map. |
| `ExternalMemory.NotObjectIsRefused` | src/program/workflow.rs:17-19 | A present, non-null field that is not a JSON object fails with `ExpectedMap`. |
| `ExternalMemory.NormalisedObject` | src/program/workflow.rs:17-51 | For an object field, the result is `Ok(Some(m))` if and only if the last member of every key has an accepted shape. Earlier members with the same key are overwritten by the parser and never examined. Otherwise the result is `Err(InvalidEntryFormat)`. `m` has exactly the members' keys, and each key holds the classified value of its last member. |
| `ExternalMemory.OneBadValueFailsAll` | src/program/workflow.rs:31-32 | Atomicity: a refused value that survives in the parsed map (the last member with its key) fails the whole field with `InvalidEntryFormat`. No partial map is returned. |
| `ExternalMemory.DeserializeExternalMemory` | src/program/workflow.rs:8-55 | The imperative normaliser reads the field as an optional value, then runs the outer insert loop over the parsed map's members, the inner page-push loop and the early returns. It returns exactly what `Normalised` gives for every input. `Normalised` has no row of its own: its contract is stated by the `NormalisedObject`, `AbsentStaysAbsent` and `NotObjectIsRefused` rows. In particular, an absent or `null` field gives `Ok(None)`, and any map it returns comes from an object field. |
| `ExternalMemory.StringExample` | src/program/workflow.rs:36-40 | `{"m1": "hello"}` becomes `{m1: Entry(String("hello"))}`. |
| `ExternalMemory.PageExample` | src/program/workflow.rs:24-35 | `{"m2": [obj, "x"]}` becomes `{m2: Page([Json(obj), String("x")])}`, in array order. |
| `ExternalMemory.NumberExample` | src/program/workflow.rs:46-47 | `{"m3": <number>}` fails the whole field with `InvalidEntryFormat`. |
| `ExternalMemory.RepeatedKeyExample` | src/program/workflow.rs:36-40 | `{"k": <number>, "k": "x"}` is accepted as `{k: Entry(String("x"))}`, because the number is overwritten before the loop runs. |
| `Workflows.FindFirst` | src/program/workflow.rs:120-130 | The linear search behind the `find` lookups returns the position of the first element, in stored order, that satisfies the predicate. No earlier element satisfies it. The result is None exactly when no element does. |
| `Workflows.Workflow.constructor` | src/program/workflow.rs:69-83 | `new` stores the five parts as given, with no validation. |
| `Workflows.Workflow.GetStep` | src/program/workflow.rs:116-118 | The result is `Some(steps[index])` exactly when `index < |steps|`, and `None` otherwise. |
| `Workflows.Workflow.GetStepById` | src/program/workflow.rs:120-122 | The result is the first edge, in stored order, whose `source` equals the id, or `None` exactly when no edge has that source. |
| `Workflows.Workflow.GetTasksById` | src/program/workflow.rs:124-126 | The result is the first task, in stored order, whose `id` equals the id, or `None` exactly when no task has that id. |
| `Workflows.Workflow.SetTasks` | src/program/workflow.rs:104-106 | Mutable access to the task list replaces only `tasks`. `config`, `steps`, `return_value` and `external_memory` are unchanged. |
| `Workflows.Workflow.UpdateTaskById` | src/program/workflow.rs:128-130 | The method finds the same first-match index as the read-only lookup and rewrites only that task. With no match it changes nothing. `config`, `steps`, `external_memory` and `return_value` are unchanged. If the edit keeps the task's id, a later `GetTasksById` returns the edited task. |

## Left out

- `new_from_json` (src/program/workflow.rs:86-91): opening a file, buffered reading and JSON parsing are I/O and calls into a foreign library. The normaliser takes the parsed field value directly as `Option<Value>`.
- The serde plumbing (the `#[serde(...)]` attributes, `Error::custom` messages): errors are the abstract values `ExpectedMap` and `InvalidEntryFormat`, not message strings. `AsOptional` models both cases that give no value. An absent field gets `None` from the `default` attribute at line 61, without calling the hook. A `null` field gets `None` from `Option::deserialize` at line 14.
- Repeated keys inside nested objects: an `Entry::Json` value, and any object inside it, is carried as the document writes it. The parser's collapsing of repeated keys is modelled only for the members of the `external_memory` object itself. So a nested object with a repeated key appears in the model with both members, where the source holds only the last one. This core only stores and forwards `Json` payloads and never interprets them, so their nested representation does not affect any property the core promises.
- `Config`, `TaskOutput` and all of `Task` and `Edge` except `Task.id` and `Edge.source`: they are defined in a module that is not part of this model, so they are abstract types here.
- JSON number contents (floats) are an opaque integer tag. `HashMap` hashing and iteration order are not modelled: the result is a Dafny `map`.
- The getters `get_config`, `get_tasks`, `get_workflow` and `get_return_value`: they are plain field reads, and here the fields themselves are read directly.
- Rust references and borrowing: lookups return copies of the found value. The `&mut Task` handed out by `get_tasks_by_id_mut` is modelled as an edit function applied in place, so aliasing through a retained reference is not modelled.
