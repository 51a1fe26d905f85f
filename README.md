# seamless: the round-robin backend registry

seamless is a TCP proxy. Each accepted connection goes to the next backend of
a list of `host:port` addresses, in round-robin order. A small HTTP control
interface changes the list without a restart: `set` replaces it with a
comma-separated list, `add` appends an address, `remove` deletes an address
and `get` shows the list.

The repository holds two versions of the registry, and this project models
both:

- **`Backends`** (backends.go) is an object with a list and a cursor.
  `Next` advances the cursor, then reads, so it stays in range whatever the
  cursor was before. `Set` resets the cursor, and `Remove` deletes every
  occurrence of an address in place. It is modelled as the class
  `RoundRobin.Backends`.
- **The registry of seamless.go** is the one the proxy actually uses. It is
  two package variables, `backends` and `currentBackend`, modelled as the
  class `Seamless.Registry`. Its control logic is modelled too:
  - the address validator `^[^:]+:[0-9]+$`, as an automaton proved equal to
    the `host:port` shape;
  - `parseBackends`, as a method with the source's loop;
  - the `remove` helper, as a method with the source's loop;
  - `nextBackend`, which reads at the cursor and then advances;
  - the `set`, `add`, `remove` and `get` handlers. Each is a transition on
    the two variables that answers either with a client error or with the
    rendered list `Join(backends, ",") + "\n"`.

Supporting modules:

- `Seqs` gives the specification of removal: `Count` and `Without`.
- `Strings` models the parts of Go's `strings` package the proxy uses:
  - `Split` on one character, and `Join`;
  - `TrimSpace`, using the white-space set of `unicode.IsSpace`.
- `Arith` holds facts about `*` and `%` used by the cursor arithmetic.
- `Results` holds the `Result` type.

The two registries behave differently, and the model keeps them apart:

- **Order of selection.** `Backends.Next` advances the cursor and then
  reads (backends.go:35-36). `nextBackend` reads at the cursor and then
  advances (seamless.go:75-76).
- **Cursor on `Set`.** `Backends.Set` resets the cursor to 0
  (backends.go:22). `setBackends` never touches it, and neither does
  `removeHandler`.
- **Consequence.** The cursor of seamless.go can be left outside a list
  that has shrunk; see Findings.

## Model

| member | source | states |
|---|---|---|
| RoundRobin.Advance | backends.go:35 | the advanced cursor is below the list length, whatever it was before |
| RoundRobin.Picks | backends.go:34-36 | k successive advance-then-read selections give k backends; PicksRoundRobin says which, and NextMany ties them to the method |
| RoundRobin.PicksRoundRobin | backends.go:34-36 | the j-th of successive selections returns the element j+1 places after the starting cursor, modulo the length |
| RoundRobin.Backends.constructor | backends.go:10-14 | the zero value holds no backends and has cursor 0 |
| RoundRobin.Backends.Set | backends.go:17-23 | the list becomes exactly the argument and the cursor is reset to 0, whatever it was |
| RoundRobin.Backends.Next | backends.go:26-38 | empty list: the error "empty backends", with list and cursor unchanged; otherwise the cursor becomes (cursor+1) mod length and is in range even when it was not before, and the result is the element at the new cursor; the list is unchanged |
| RoundRobin.Backends.Add | backends.go:41-46 | the list is the old list with the backend appended at the end; the cursor is unchanged |
| RoundRobin.Backends.Remove | backends.go:49-64 | the new list is the old one with every occurrence deleted and the survivors in order; the count returned is the number of occurrences; new length = old length - count; an absent address gives 0 and an unchanged list; the cursor is untouched |
| RoundRobin.Backends.String | backends.go:67-72 | the elements joined with "," in order |
| RoundRobin.NextMany | backends.go:26-38 | k successive calls of Next return exactly Picks of the list from the object's cursor and leave the cursor k places on, (cursor + k) mod length when k > 0; the list is unchanged |
| RoundRobin.NextScenario | backends_test.go:26-42 | after setting [a, b], three selections give b, a, b; after setting [], selection fails |
| RoundRobin.RemoveScenario | backends_test.go:52-73 | removing from an empty list deletes 0; removing a from [a, b, a] deletes 2 and leaves [b] |
| RoundRobin.StringScenario | backends_test.go:75-85 | an empty list renders as "", [a, b] as "a,b", and appending c gives "a,b,c" |
| Seqs.WithoutLength | seamless.go:176-187 | the occurrences deleted are at most the length, and the result is shorter by exactly their number |
| Seqs.WithoutCount | seamless.go:176-187 | after deletion the deleted value has no occurrences and every other value keeps its count, so the result is a permutation of the survivors |
| Seqs.WithoutAbsent | seamless.go:176-187 | the deleted value does not occur in the result; deleting an absent value changes nothing |
| Seqs.WithoutAppend | seamless.go:176-187 | deletion distributes over concatenation, so survivors keep their relative order |
| Seqs.WithoutRemoveAt | backends.go:55-57 | cutting out one occurrence at position i does not change what deleting every occurrence gives (the loop step) |
| Strings.Join | backends.go:71 | the join of a non-empty list starts with its first element |
| Strings.JoinAppend | backends.go:71 | joining one more part puts it after a separator at the end: what `Add` then `String` show |
| Strings.Split | seamless.go:81-84 | splitting never yields zero pieces |
| Strings.SplitAbsent | seamless.go:81 | a string without the separator splits into itself alone |
| Strings.SplitCount | seamless.go:81 | there is one piece per separator, plus one |
| Strings.SplitPieces | seamless.go:81 | no piece contains the separator |
| Strings.JoinSplit | seamless.go:81 | joining the pieces with the separator gives back the input |
| Strings.SplitJoin | seamless.go:157 | splitting a join of non-empty lists of separator-free parts gives back the parts |
| Strings.TrimLeft | seamless.go:87 | the result is a suffix of the input, it does not start with white space, and everything dropped is white space |
| Strings.TrimRight | seamless.go:87 | the result is a prefix of the input, it does not end with white space, and everything dropped is white space |
| Strings.TrimSpace | seamless.go:87 | the trimmed string is empty or neither starts nor ends with white space |
| Strings.TrimSpaceSlice | seamless.go:87 | the trimmed string is a contiguous slice s[i..j] of the input, and everything before i and after j is white space |
| Strings.TrimSpaceFixed | seamless.go:87 | a string that neither starts nor ends with white space is its own trim |
| Strings.TrimSpaceIdempotent | seamless.go:87 | trimming twice gives the same as trimming once |
| Strings.TrimSpaceAbsent | seamless.go:87 | trimming never introduces a character |
| Seamless.IsValidBackend | seamless.go:58-63 | the validator accepts exactly the strings host + ":" + port with host non-empty and colon-free and port a non-empty run of ASCII digits |
| Seamless.ValidBackendAtColon | seamless.go:58-63 | the automaton accepts exactly when the first colon has at least one character before it and a non-empty run of digits after it to the end |
| Seamless.ValidBackendShape | seamless.go:58-63 | the automaton for the regular expression accepts s exactly when s = host + ":" + port with host non-empty and colon-free and port a non-empty run of ASCII digits |
| Seamless.ValidBackendColon | seamless.go:58-63 | a valid address holds exactly one colon and ends in a digit |
| Seamless.FirstInvalid | seamless.go:86-91 | the index returned is the first invalid element: every earlier element is valid, and it is the length only when all elements are |
| Seamless.ParseBackends | seamless.go:80-94 | success exactly when every trimmed comma-separated piece is valid, and then the result is the trimmed pieces in input order; otherwise the error names the first invalid trimmed piece, and no partial list is returned |
| Seamless.ParsedCount | seamless.go:81-87 | the parsed list has one element per comma, plus one |
| Seamless.EmptyInputRejected | seamless.go:81-84 | the empty input splits into one empty piece, so the zero-piece branch cannot fire, and the input is rejected as not valid |
| Seamless.RenderParseRoundTrip | seamless.go:155-158 | the body `get` renders for a parsed list ends in a newline, and without it parses back to the same list |
| Seamless.TrimmedCommaFree | seamless.go:86-87 | no trimmed piece of a comma split holds a comma |
| Seamless.TrimmedIdempotent | seamless.go:86-87 | trimming already-trimmed pieces changes nothing |
| Seamless.Remove | seamless.go:176-187 | the result is the input with every occurrence deleted and the survivors in order; its length is the old length minus the number of occurrences, and it equals the old length exactly when the item is absent |
| Seamless.Served | seamless.go:75-76 | k successive selections give k backends |
| Seamless.ServedRoundRobin | seamless.go:75-76 | the j-th of successive selections returns the element j places after the starting cursor, modulo the length (the cursor element itself first) |
| Seamless.ServeConnections | seamless.go:256-266 | k successive `nextBackend` calls, one per accepted connection, on a non-empty list with the cursor in range, give Served of the list from the registry's cursor; the cursor ends at (cursor + k) mod length; the list is unchanged |
| Seamless.Registry.constructor | seamless.go:49-53 | both package variables start at their zero values |
| Seamless.Registry.NextBackend | seamless.go:65-78 | requires the cursor to be in range, as the unguarded index does; empty list: the error "No backends" with the cursor unchanged; otherwise it returns the element at the old cursor, the cursor becomes (cursor+1) mod length, and the cursor is in range again |
| Seamless.Registry.NextBackendClamped | seamless.go:75-76 | corrected selection: no precondition; it reads at cursor mod length, the cursor becomes (cursor mod length + 1) mod length and so is in range, and it agrees with NextBackend whenever the cursor was in range |
| Seamless.Registry.GetHandler | seamless.go:155-158 | answers with the list joined by commas plus a newline |
| Seamless.Registry.SetBackends | seamless.go:129-142 | if every trimmed piece is valid, the list becomes the parsed list and is rendered; otherwise a client error "error: '<piece>' is not valid network address" names the first invalid piece and the list is unchanged; the cursor is never reset |
| Seamless.Registry.AddHandler | seamless.go:160-173 | an empty parameter is a client error and changes nothing; anything else is appended with no format check and the list is rendered; the cursor is untouched, so it stays in range when the old list was non-empty |
| Seamless.Registry.RemoveHandler | seamless.go:189-217 | an empty parameter, or an address that is not in the list, is a client error and changes nothing; otherwise every occurrence is deleted and the new list rendered; the cursor is untouched |
| Seamless.SingleAddressParses | seamless.go:80-94 | the input "x:1" parses to the one-element list ["x:1"] |
| Seamless.CursorEscapesAfterRemove | seamless.go:208-216 | three addresses, two selections, then removing the third leaves a list of two with the cursor at 2: out of range |
| Seamless.CursorEscapesAfterSet | seamless.go:129-142 | two addresses and one selection, then setting a one-address list leaves the cursor at 1: out of range |
| Seamless.CursorEscapesAfterAdd | seamless.go:160-173 | an address added twice, one selection, the address removed and another added leaves a list of one with the cursor at 1: out of range |

## Left out

- `forward`, `Accept` and the error branch of the accept loop in `main` (seamless.go:97-106, 256-267) are left out. They are socket I/O and goroutines. The error branch includes the missing `continue` after a `nextBackend` error, which hands the empty address to `forward`. Seamless.ServeConnections models only the loop's repeated `nextBackend` calls, on a non-empty list, with no control request in between.
- Locking is not modelled (`sync.Mutex` at backends.go:13, `sync.RWMutex` at seamless.go:56). Every operation is modelled as atomic, so two races fall outside this sequential model:
  - `nextBackend` writes `currentBackend` while holding only the read lock.
  - The rendering deferred in `removeHandler` runs after the lock is released.
- `main`, flag parsing, `die`, `startHttpServer`, logging, response headers and HTTP status codes are left out. A handler's answer is modelled as a client error or the rendered body. Reading the request parameter is modelled as an argument, so the choice of `backend` or `backends` in `switchHandler` and `setHandler` is not modelled.
- seesaw.go, a separate two-server program, is not part of this model.
- Go slice aliasing is not modelled. Lists are value sequences, so neither of these is captured:
  - `Set` keeps the caller's slice without copying it.
  - The in-place shift of `append(items[:i], items[i+1:]...)` writes into a backing array that others may share.
- Strings are sequences of code points, not UTF-8 bytes. `TrimSpace` uses the full `unicode.IsSpace` set of code points. The regular expression's `[^:]` is taken per code point, and invalid UTF-8 is not modelled.
- Backends.current and Registry.currentBackend are modelled as `nat`. No operation makes them negative. 64-bit overflow of `int` is not modelled.
- Seamless.ParseBackends: the branch for zero pieces (seamless.go:82-84) is omitted, because `strings.Split` never returns zero pieces. Strings.Split and Seamless.EmptyInputRejected state this.

## Findings

| source | as written | input that shows it | evidently intended | confidence | as-written member | corrected member |
|---|---|---|---|---|---|---|
| seamless.go:75 | `nextBackend` indexes `backends[currentBackend]` with no bounds check. `setBackends` and `removeHandler` replace the list without clamping or resetting the cursor, and so does `addHandler` after the list was emptied. | backends a, b, c; two connections accepted (cursor 2); `remove?backend=c` leaves two backends; the next accepted connection indexes position 2 of a two-element list | stay in range, as `Backends.Next` in backends.go does by reducing modulo the length | high; not executed | Seamless.Registry.NextBackend, Seamless.CursorEscapesAfterRemove | Seamless.Registry.NextBackendClamped |
