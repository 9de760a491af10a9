# Generic table over a doubly linked list, in Dafny

This project models the generic associative table of `src/mtftable.c`: a
table keeps key/value entries in a sequence, front to back, together with a
caller-supplied key comparator and two optional disposers (one for keys, one
for values). Insertion always puts the new entry at the front and never looks
for duplicates, so a lookup, which scans front to back and stops at the first
entry whose key compares equal, finds the most recently inserted value for a
key. A removal scans the whole sequence and unlinks every matching entry,
duplicates included, after handing its key and value to the disposers that
were given. Killing the table hands every entry to the disposers and then
releases it. Printing visits every entry in order.

Despite the file's name, nothing in the code moves an entry to the front when
it is looked up: `table_lookup` takes a `const table *` and only reads. The
model follows the code.

Two modules:

- `Entries` (`entries.dfy`): the entry list as a value. `FirstMatch` and
  `LookupIn` say what a lookup answers, `Select` what a removal keeps and what
  it takes out, `DisposalsOf` which disposer calls a removal or a kill makes,
  `Inserted` and `Latest` what a series of insertions leaves. The lemmas state
  the table's promises about these: the insert/lookup round trip, that the
  latest insertion wins, that a removal removes all duplicates and leaves
  every other lookup unchanged, and that each set disposer is called exactly
  once per disposed entry, front to back.
- `MtfTable` (`mtftable.dfy`): class `Table`, with the entry list as a field
  that the methods reassign in place of the linked list, the comparator and
  the presence of each disposer as constants, and a ghost log of disposer
  calls. `Lookup`, `Remove`, `Kill` and `Print` keep the source's `while`
  loops that step a position through the list; `Remove` unlinks the entry at
  the current position and stays there, as `dlist_remove` returns the next
  position. Each method's postcondition ties the new list and the new log to
  the functions of `Entries`; `Kill` leaves the list as it was. Two client
  methods replay small concrete scenarios: integer keys with duplicates, and removal of a twice-inserted key
  with both disposers set.

The comparator is a Dafny function `(K, K) -> int`; an entry matches a search
key when `cmp(entry key, search key) == 0`, the argument order of the source.
The round-trip properties need `cmp(k, k) == 0` and say so in their
preconditions; the property that a removal leaves other keys alone is stated
once for any comparator (no entry may match both keys) and once for a
comparator that is an equivalence.

## Model

| member | source | states |
|---|---|---|
| `MtfTable.Table.Empty` | src/mtftable.c:49-63 | a new table has no entries, keeps the given comparator and disposer choices, has made no disposer call, and reports itself empty |
| `MtfTable.Table.IsEmpty` | src/mtftable.c:71-74 | true exactly when the table holds no pairs; an empty table misses every lookup |
| `MtfTable.Table.Insert` | src/mtftable.c:89-99 | the new list is the pair followed by the old list unchanged (no duplicate check), no disposer is called, the table is no longer empty, and with `cmp(key, key) == 0` a lookup of key now yields value |
| `MtfTable.Table.Lookup` | src/mtftable.c:110-129 | the loop returns the value of the first entry, front to back, whose key compares equal, or None when none does; the table is not changed |
| `MtfTable.Table.DisposeEntry` | src/mtftable.c:156-161 | the key disposer (if set) is called on the entry's key, then the value disposer (if set) on its value |
| `MtfTable.Table.Remove` | src/mtftable.c:142-169 | the new list is the old list without its matching entries, the rest in their order; the log gains the disposer calls of exactly the removed entries, front to back; afterwards the key is not found |
| `MtfTable.Table.Kill` | src/mtftable.c:182-205 | the log gains the disposer calls of every entry front to back, the entries themselves are not touched, and the table can no longer be used |
| `MtfTable.Table.Print` | src/mtftable.c:207-219 | the visitor is called once per entry, front to back, with that entry's key and value; the table is not changed |
| `Entries.FirstMatch` | src/mtftable.c:114-126 | the position found holds a matching entry and no earlier entry matches; no position means no entry matches |
| `Entries.LookupIn` | src/mtftable.c:101-129 | a lookup misses exactly when no entry matches, and otherwise yields the value of a matching entry with no matching entry before it |
| `Entries.InsertThenLookup` | src/mtftable.c:82-98 | right after inserting (key, value) a lookup of key yields value, even if key was already present, given `cmp(key, key) == 0` |
| `Entries.LookupAfterInsert` | src/mtftable.c:94-98 | after a front insertion a lookup sees the new pair when its key matches and answers as before otherwise |
| `Entries.LookupFindsLatest` | src/mtftable.c:82-85 | after any series of insertions a lookup yields the value of the most recent inserted pair whose key matches, falling back to the earlier list only when none matches |
| `Entries.InsertedSnoc` | src/mtftable.c:94-98 | one more insertion puts its pair in front of the list the earlier insertions left, so `Inserted` is what successive calls of `Table.Insert` produce |
| `Entries.InsertedLength` | src/mtftable.c:94-98 | every insertion adds exactly one entry, none is ever merged |
| `Entries.Select` | src/mtftable.c:148-168 | selecting the kept or the removed entries never lengthens the list |
| `Entries.SelectMembers` | src/mtftable.c:148-168 | a removal keeps exactly the non-matching entries and takes out exactly the matching ones |
| `Entries.SelectSnoc` | src/mtftable.c:153-167 | examining one more entry adds it to the removed part when it matches and to the kept part otherwise |
| `Entries.SelectAppend` | src/mtftable.c:146-168 | the removal of a concatenation is the concatenation of the removals, so the kept entries stay in their order |
| `Entries.SelectPartition` | src/mtftable.c:136-138 | the kept and the removed entries together are the original entries, duplicates counted, so every duplicate is removed once |
| `Entries.RemoveThenLookupMisses` | src/mtftable.c:136-138 | after removing a key a lookup of it finds nothing, however many duplicates there were |
| `Entries.RemovePreservesOtherLookups` | src/mtftable.c:164-167 | removing a key leaves the lookup of any other key unchanged when no entry matches both |
| `Entries.RemoveKeepsUnequalKeys` | src/mtftable.c:164-167 | with a comparator that is an equivalence, removing a key leaves the lookup of every unequal key unchanged |
| `Entries.RemoveAbsentKeyIsNoop` | src/mtftable.c:136-138 | removing a key that nothing matches keeps the list as it is and calls no disposer |
| `Entries.DisposalsCallEachOnce` | src/mtftable.c:185-199 | the key disposer, if set, receives the keys of the disposed entries once each in list order, and the value disposer the values likewise; an unset disposer is never called |
| `Entries.DisposalsInterleave` | src/mtftable.c:191-196 | with both disposers set, entry i's key is disposed of at call 2i and its value at call 2i+1 |
| `MtfTable.IntKeyScenario` | src/mtftable.c:89-169 | integer keys: after inserting (1,a), (2,b), (1,c), key 1 yields c, the latest of its values; after removing 1, key 1 is not found and key 2 still yields b |
| `MtfTable.DuplicateDisposalScenario` | src/mtftable.c:142-169 | with both disposers set, removing a key inserted twice leaves the table empty, and the returned disposer log is key, value, key, value: each disposer called twice |

## Left out

- The doubly linked list (`dlist.h`) is not part of this model: the entry list is a Dafny sequence, and its first/next/end/inspect/insert/remove operations become indexing, slicing and concatenation.
- Allocation and release (`calloc`, `malloc`, `free`, `dlist_kill`) and the unchecked allocation failure are not modelled; `Kill` only records the disposer calls and marks the table as no longer usable, and leaves its list field as it was.
- What the disposers and the print callback do is foreign code: disposer calls are recorded in a ghost log, and `Print` returns the sequence of (key, value) arguments the callback receives. A callback that changes the table is not modelled.
- Keys and values are `void *` in the source; here they are type parameters. `table_lookup` signals "not found" with NULL, which a stored NULL value cannot be told apart from; the model answers with `Option`, so that ambiguity is not modelled.
- `MtfTable.Table`: keys are limited to types that hold no object references (`K(!new)`), which the quantifier over all keys in `IsEmpty`'s postcondition needs; the source's `void *` keys are unrestricted, so keys that are Dafny objects are not modelled.
- The comparator is a pure, total Dafny function; only whether it returns 0 matters, as in the source. A comparator with side effects is not modelled.
- `Entries.Select`: its own contract only bounds the length; what it keeps and removes is stated by `Entries.SelectMembers`, `Entries.SelectPartition` and `Entries.SelectAppend`.
