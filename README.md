# Emo-Note diary store, modelled in Dafny

Emo-Note keeps its diary in memory, inside the `App` component
(`ED/src/App.jsx`). The list of entries is the state of a React reducer.
Each entry has an `id`, a `createdDate` timestamp, an `emotionId` and a text
`content`, and the list is kept newest first. Three intents change the list,
and each one sends an action to the reducer:

- `onCreate` takes the next id from a counter (`idRef`, which starts at 3) and dispatches `CREATE`.
- `onUpdate` dispatches `UPDATE` with a full replacement record.
- `onDelete` dispatches `DELETE` with only an id.

The reducer compares ids after converting both sides with `String(...)`.
So the number `1` and the text `"1"` are the same id.

The model has three modules:

- `EntryId` (`ids.dfy`) covers ids. An id is a number or a text (`IdVal`).
  `Canon` is JavaScript's `String()` for whole numbers and texts.
  `IntValue` reads a number from a decimal text. The round-trip lemma
  proves `IntValue(IntText(n)) == Some(n)` for every whole number `n`.
- `DiaryReducer` (`reducer.dfy`) holds the entry and action datatypes, the
  pure `Reducer`, and lemmas about each kind of action.
- `DiaryApp` (`store.dfy`) holds:
  - the seed list `MockData`;
  - the counter's first value `FirstFreeId` (3, as in `useRef(3)`);
  - the store invariant: ids are unique, and each one's text is `String(k)` for a whole number `k` below the counter;
  - a pure model of the counter's allocations;
  - the class `DiaryStore`, with the fields `entries` and `nextId` and the intents `OnCreate`, `OnUpdate` and `OnDelete`.

`dispatch` is modelled as a synchronous `entries := Reducer(entries, action)`.
The clock readings `new Date().getTime()` are parameters.

In the source, the `}` at line 69 closes the `switch`, and the reducer
function's own closing brace is missing. The reducer is taken to end at line 69.

One might expect UPDATE to replace only the first entry with a matching id.
The code (`state.map`, lines 48-54) replaces every entry whose id matches,
and `Reducer` follows the code. When ids are unique, the two readings agree
(`UpdateUniqueIsPointUpdate`).

The action datatype has no tag for `Other`: it stands for any action whose
type is none of "CREATE", "UPDATE" and "DELETE", and the reducer returns the
list unchanged for it.

## Model

| member | source | states |
|---|---|---|
| `EntryId.IntText` | ED/src/App.jsx:51 | `String(n)` of a whole number is non-empty and starts with a minus sign exactly when `n` is negative. |
| `EntryId.Canon` | ED/src/App.jsx:51 | `String(id)`: a numeric id's text reads back as that number, and a text id is its own text. |
| `EntryId.IntTextRoundTrip` | ED/src/App.jsx:51 | Reading back the decimal text that `String(n)` gives for a whole number returns `n`. |
| `EntryId.SameNumIff` | ED/src/App.jsx:51 | Two numeric ids compare equal under `String(...)` exactly when they are the same number. |
| `EntryId.SameNumStrIff` | ED/src/App.jsx:62 | A text id equals the numeric id `n` exactly when the text is `String(n)`, and then the text reads back as `n`. |
| `EntryId.NumOneIsTextOne` | ED/src/App.jsx:62 | The number 1 and the text "1" are the same id. |
| `DiaryReducer.ReplaceMatching` | ED/src/App.jsx:48-54 | The mapped list has the same length as the input, and at each index holds the payload if that entry's id matches and the original entry otherwise. |
| `DiaryReducer.RemoveMatching` | ED/src/App.jsx:59-63 | The filtered list is no longer than the input and holds exactly the input's entries whose id differs from the given one. |
| `DiaryReducer.Reducer` | ED/src/App.jsx:40-69 | CREATE puts the payload at index 0 and the old list after it (length + 1). UPDATE keeps the length and replaces exactly the matching entries. DELETE keeps exactly the non-matching entries. Any other action returns the list unchanged. |
| `DiaryReducer.UpdateUnmatchedIsNoOp` | ED/src/App.jsx:48-54 | UPDATE with an id that no entry has returns the list unchanged. |
| `DiaryReducer.UpdateUniqueIsPointUpdate` | ED/src/App.jsx:46-54 | With unique ids, UPDATE is the single-index replacement `s[k := payload]` at the one matching index. |
| `DiaryReducer.UpdateKeepsIds` | ED/src/App.jsx:51 | After UPDATE, every index still holds an id with the same `String(...)` text. |
| `DiaryReducer.UpdateIdempotent` | ED/src/App.jsx:46-54 | Dispatching the same UPDATE twice gives the same list as dispatching it once. |
| `DiaryReducer.DeleteCountsMatches` | ED/src/App.jsx:57-63 | DELETE shortens the list by exactly the number of entries that carry the id. |
| `DiaryReducer.UniqueCountAtMostOne` | ED/src/App.jsx:59-63 | In a list with unique ids, at most one entry carries any given id. |
| `DiaryReducer.DeleteUniqueShrinksByOne` | ED/src/App.jsx:57-63 | With unique ids, DELETE of an id that is present shortens the list by exactly one. |
| `DiaryReducer.DeleteUnmatchedIsNoOp` | ED/src/App.jsx:57-63 | DELETE with an id that no entry has returns the list unchanged. |
| `DiaryReducer.DeleteIdempotent` | ED/src/App.jsx:57-63 | Dispatching the same DELETE twice gives the same list as dispatching it once. |
| `DiaryReducer.DeleteDistributes` | ED/src/App.jsx:59-63 | DELETE on a concatenation is the concatenation of the DELETEs, so survivors keep their relative order. |
| `DiaryReducer.DeleteIsOrderedSelection` | ED/src/App.jsx:59-63 | The DELETE result is the input read at the ascending indices of its non-matching entries: all of them, in their original order. |
| `DiaryReducer.DeleteRepresentationIndependent` | ED/src/App.jsx:62 | Two DELETE ids that compare equal under `String(...)` give the same result. |
| `DiaryReducer.TextOneMatchesNumberOne` | ED/src/App.jsx:51 | DELETE with "1" removes an entry stored with the number 1, the same as DELETE with 1 does. UPDATE with a payload whose id is "1" replaces that entry. |
| `DiaryApp.MockData` | ED/src/App.jsx:23-36 | The seed list has two entries with ids 1 and 2. With the counter at its first value 3 (`FirstFreeId`, line 81), the ids are unique, and each is `String(k)` for some `k` below the counter. |
| `DiaryApp.CreateKeepsInv` | ED/src/App.jsx:84-94 | CREATE with the counter's current value as id, with the counter then one higher, keeps ids unique and below the counter. |
| `DiaryApp.UpdateKeepsInv` | ED/src/App.jsx:97-107 | Any UPDATE keeps ids unique and below the counter. |
| `DiaryApp.DeleteKeepsInv` | ED/src/App.jsx:110-115 | Any DELETE keeps ids unique and below the counter. |
| `DiaryApp.AllocateIds` | ED/src/App.jsx:88 | N successive read-then-increment steps from counter k hand out exactly k, k+1, ..., k+N-1, and so never the same id twice. |
| `DiaryApp.AllocateIdsSnoc` | ED/src/App.jsx:88 | One more allocation appends the counter's current value to the ids handed out so far. |
| `DiaryApp.DiaryStore.constructor` | ED/src/App.jsx:78-81 | A new store holds the seed list, has its counter at 3, has handed out no ids, and satisfies the invariant. |
| `DiaryApp.DiaryStore.Dispatch` | ED/src/App.jsx:78 | The held list becomes the reducer's result for the action. Nothing else changes. Only the three intents call it. |
| `DiaryApp.DiaryStore.OnCreate` | ED/src/App.jsx:84-94 | The new entry takes the old counter value as its id and is prepended. The counter goes up by one. The id is appended to the ids handed out and was never handed out before. The invariant is kept. |
| `DiaryApp.DiaryStore.OnUpdate` | ED/src/App.jsx:97-107 | The list becomes the UPDATE result for the full replacement record. The counter is untouched and the invariant is kept. |
| `DiaryApp.DiaryStore.OnDelete` | ED/src/App.jsx:110-115 | The list becomes the DELETE result for the id. The counter is untouched and the invariant is kept. |
| `DiaryApp.ButtonScenario` | ED/src/App.jsx:121-145 | On the seed list, the three button actions give three lists in turn: [3, 1, 2], then [3, 1', 2] with entry 1 replaced where it stands, then [3, 2]. |
| `DiaryApp.TestButtons` | ED/src/App.jsx:121-145 | On a fresh store, pressing create, update 1 and delete 1 in turn leaves exactly the new entry 3 followed by the seed entry 2. |

## Left out

- JSX rendering, the `Header` and `Button` components, and the `Routes` page wiring (lines 118-174). These are UI code over components that are not part of this model. The calls that the three test buttons make (lines 121-145) are modelled as a scenario (`ButtonScenario`, `TestButtons`).
- The two `createContext` providers (lines 72-73, 155-172). They only pass `entries` and the three intents on to consumers.
- React hook machinery: `useReducer` scheduling, `useRef` identity and re-rendering. `dispatch` is a synchronous update of the `entries` field.
- `new Date().getTime()`. Clock readings are plain integer parameters.
- The CSS import and the page modules `Home`, `New`, `Diary`, `Edit` and `Notfound`. These are not part of this model.
- JavaScript number precision. `nextId` is an unbounded integer. A JavaScript counter stops growing at 2^53, and `String` writes numbers of 10^21 and above in exponent form. Neither is modelled.
- Ids other than whole numbers and texts (fractions, `undefined`, objects). Also actions that carry a recognised type but no payload.
