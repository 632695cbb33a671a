# A verified model of the `bin` paste backend

`bin` is a small paste server: a client posts bytes, gets back a short random
identifier, and later fetches the paste by that identifier. This project models, in
Dafny, the parts of its Rust source that carry real logic:

- **The bounded paste store** of `src/io.rs` (module `Store`). It is an
  insertion-ordered map (`LinkedHashMap`) from identifier to bytes with a capacity
  (`BUFFER_SIZE`). `purge_old` pops entries off the oldest end until at most
  `capacity` remain. `store_paste` purges and then inserts. `get_paste` is a
  lookup that changes nothing.
  - The map's value is the datatype `Entries`: its keys oldest first, plus a `map`
    of contents. `PasteStore` is the class whose methods update that state in
    place, one call per locked section.
- **Identifier generation** (`generate_id`, in both `src/io.rs` and `src/main.rs`;
  module `Ids`). Twelve characters are taken from the alphabet literal by indices
  that the random source draws below the literal's byte length.
- **UTF-8** (module `Utf8`). This is the encoding of Rust strings and the check
  `std::str::from_utf8` that the handlers apply to the Host header and to stored
  pastes.
- **The `PasteRepository` interface** of `src/main.rs` (module `Repository`). It is
  given by an in-memory implementation.
- **The handlers' logic** in `src/main.rs` (module `Handlers`):
  - the retry loop that draws identifiers until one is free;
  - the create call and the location that `submit` and `submit_raw` answer with;
  - the split of the path segment into key and extension;
  - the `<code>` wrapping of each line of the rendered paste.

### What the code does, stated precisely

Some of the store's and the generator's behaviour is easy to misread from the
names. The model follows the code:

- The alphabet literal at `src/io.rs:27` has **46** characters: a–z and A–Z without
  i, l, o, I, L, O.
- `store_paste` purges **before** inserting (`src/io.rs:41-43`). After a store the
  map therefore holds up to `capacity + 1` entries. The doc comment at
  `src/io.rs:11-12` says "less than" the buffer size; the code does not keep that
  bound.
- With capacity 0, a store leaves exactly the new entry in the map.
- With capacity 2, storing new keys a, b, c, d leaves b, c, d.
- Storing again under a key that is present can evict another entry. In a map holding
  `capacity + 1` entries, re-storing the newest key drops the oldest entry. When the
  purge has already dropped the key, re-storing it appends it as a new key.
- The store's capacity comes from a `buffer_size` argument that `BinArgs`
  (`src/main.rs:41-54`) does not declare. Here the capacity is a constructor
  parameter.

## Model

| member | source | states |
|---|---|---|
| Store.DropOldest | src/io.rs:19-21 | `k` calls to `pop_front` leave the keys from position `k` on, in order; exactly the first `k` keys lose their content; every other value is unchanged |
| Store.Purge | src/io.rs:15-23 | `purge_old` leaves exactly `min(len, capacity)` entries: the newest ones, in their order, with unchanged values; with `len <= capacity` nothing changes |
| Store.Len | src/io.rs:16-17 | `len` is the number of listed keys; Store.LenCountsKeys makes it the number of keys with content in a well-formed map |
| Store.LenCountsKeys | src/io.rs:16-17 | in a well-formed map, `len` equals the number of keys with content |
| Store.DistinctCard | src/io.rs:16-17 | a key list without repeats has as many different keys as it is long, so `len` counts keys |
| Store.Get | src/io.rs:49-51 | `get` finds content exactly for keys that have it, and returns that content (Store.GetListed ties this to the listed keys) |
| Store.PopFront | src/io.rs:20 | `pop_front` drops the oldest key from the order and its content; every other key reads as before |
| Store.PurgeWellFormed | src/io.rs:15-23 | purging keeps every key listed once, with content for exactly the listed keys |
| Store.Remove | src/io.rs:43 | taking a key out of the order keeps every other key and drops only that one; an absent key changes nothing |
| Store.RemoveAt | src/io.rs:43 | in a list without repeats, taking out the key at position `k` leaves the keys before and after it, in order |
| Store.Insert | src/io.rs:43 | `insert` makes the content readable under the key and the key the newest, lists exactly the old keys plus this one, and leaves every other key's content as it was (Store.InsertLength, Store.RemoveAt, Store.Restore and Store.StoreAfterPurge give the order exactly) |
| Store.AfterStore | src/io.rs:38-44 | after `store_paste(id, c)`, `get(id)` is `c`, `id` is the newest key, the size is at most `capacity + 1`, and every other key reads as it did after the purge |
| Store.StoreWellFormed | src/io.rs:41-43 | a store keeps every key listed once, with content for exactly the listed keys |
| Store.InsertLength | src/io.rs:43 | `insert` adds one entry for a new key and none for a present one |
| Store.StoreLength | src/io.rs:41-43 | the size after a store is `min(len, capacity)`, plus one unless the key survived the purge; with capacity 0 a store leaves exactly `[id]` |
| Store.Restore | src/io.rs:43 | re-storing a key that survived the purge moves it to the newest end; the other survivors keep their relative order |
| Store.Evicted | src/io.rs:41-51 | a key older than the newest `capacity` entries reads as absent after the next store of another key |
| Store.GetListed | src/io.rs:49-51 | in a well-formed map, `get` finds a key exactly when it is listed |
| Store.StoreAllBound | src/io.rs:38-44 | after any non-empty run of stores, or from a map within the bound, the size is at most `capacity + 1` |
| Store.StoreAfterPurge | src/io.rs:41-43 | a key the purge has dropped, even one that was present before, is stored as a new key: the survivors of the purge followed by that key |
| Store.PurgedThenRestored | src/io.rs:41-43 | with capacity 1, re-storing the older of two keys a, b leaves b, a: the purge drops a and the insert puts it back at the newest end |
| Store.FreshStore | src/io.rs:41-43 | storing a new key leaves the newest `min(len, capacity)` keys followed by that key |
| Store.StoreAllFresh | src/io.rs:38-44 | a run of `n` stores of new, pairwise different keys leaves the newest `min(len + n, capacity + 1)` keys of the sequence old keys then new keys, in that order; with more than `capacity + 1` new keys the oldest new keys are evicted as well (FIFO eviction) |
| Store.FourIntoTwo | src/io.rs:41-43 | with capacity 2, storing from empty four pastes under different keys a, b, c, d, whatever their contents, leaves b, c, d |
| Store.OverwriteEvicts | src/io.rs:41-43 | in a map of `capacity + 1` entries, re-storing the newest key removes the oldest and leaves `capacity` entries |
| Store.PasteStore.constructor | src/io.rs:7-9 | a new store is empty and keeps the capacity it was given |
| Store.PasteStore.PurgeOld | src/io.rs:15-23 | the counted loop of `pop_front` calls leaves the store equal to `Purge` of its old state and well formed |
| Store.PasteStore.StorePaste | src/io.rs:38-44 | the new state is `AfterStore` of the old one; the stored content reads back and the size is at most `capacity + 1` |
| Store.PasteStore.GetPaste | src/io.rs:49-52 | returns content exactly for listed keys, the content under the key, and changes nothing |
| Ids.GenerateId | src/io.rs:26-35 | twelve draws below the alphabet's byte length give twelve characters, each a letter other than i, l, o, I, L, O (the copy at `src/main.rs:57-66` has the same body) |
| Ids.AlphabetSize | src/io.rs:27-29 | the literal has 46 characters, all ASCII, so its byte length (the sampling bound) equals its length and every draw indexes a character |
| Ids.AlphabetSound | src/io.rs:27 | every character of the literal is a non-confusable letter, at the position its rank gives |
| Ids.AlphabetComplete | src/io.rs:27 | every letter other than i, l, o, I, L, O is in the literal |
| Ids.GenerateSamplesOf | src/io.rs:30-34 | every twelve-letter non-confusable string is the identifier of some draw |
| Ids.SamplesOfGenerate | src/io.rs:30-34 | different draws give different identifiers |
| Utf8.DecodeFirst | src/main.rs:184 | a decoded scalar value and its length are exactly the bytes its encoding takes at the front |
| Utf8.Decode | src/main.rs:184 | an accepted input of `n` bytes gives text of between `n / 4` and `n` characters (Utf8.DecodeEncode and Utf8.EncodeDecode make it the exact inverse of the encoding) |
| Utf8.DecodeEncode | src/main.rs:184 | `from_utf8` accepts the bytes of every string and gives back that string |
| Utf8.EncodeDecode | src/main.rs:151 | whatever `from_utf8` accepts is the encoding of the text it returns |
| Utf8.EncodeAppend | src/main.rs:184 | the encoding of two strings joined is the two encodings joined |
| Utf8.ByteLength | src/io.rs:29 | `str::len` of a string of `n` characters is between `n` and `4n` bytes (Utf8.ByteLengthOfEncoding makes it the length of the encoding) |
| Utf8.ByteLengthOfEncoding | src/io.rs:29 | `str::len` is the length of the string's UTF-8 bytes |
| Utf8.AsciiByteLength | src/io.rs:29 | for ASCII text the byte length equals the character count |
| Repository.Lookup | src/main.rs:35 | `read` finds content exactly for ids that have it, and returns that content |
| Repository.ReadAfterCreate | src/main.rs:34-35 | after a write, `read` returns the written content, and reads of other ids are unchanged |
| Repository.MemoryRepository.Create | src/main.rs:34 | a write either succeeds and sets the content under `id`, or fails with an error and changes nothing |
| Repository.MemoryRepository.Read | src/main.rs:35 | `read` answers as `Lookup` and changes nothing |
| Repository.MemoryRepository.Exists | src/main.rs:36 | `exists` is true exactly when the id has content |
| Handlers.FirstFresh | src/main.rs:129-132 | the identifier the retry loop settles on is free and well shaped, and every earlier draw gave a taken identifier |
| Handlers.ChooseId | src/main.rs:147-150 | the `while exists` loop returns the first free identifier among the draws and changes nothing |
| Handlers.Submit | src/main.rs:125-140 | `submit` picks that identifier and redirects to `/<id>` with the pastes gaining exactly that entry; a failed write aborts and leaves the pastes unchanged |
| Handlers.SubmitRaw | src/main.rs:142-159 | `submit_raw` picks that identifier and answers with its location, with the same effect on the pastes |
| Handlers.SubmitAddsOne | src/main.rs:134-136 | a successful submission adds one paste under a new id, with the submitted bytes, and keeps every old paste |
| Handlers.RelativeLocation | src/main.rs:133 | the redirect is `/` followed by the identifier |
| Handlers.Location | src/main.rs:151-155 | the answer ends in `/<id>`; it is `https://<host>/<id>` when the Host header is valid UTF-8 and `/<id>` otherwise |
| Handlers.LocationHost | src/main.rs:151-152 | the host text in an absolute location encodes back to the header's bytes |
| Handlers.IndexOf | src/main.rs:173 | finds the first occurrence of a character, or reports that there is none |
| Handlers.SplitKey | src/main.rs:173-175 | the key has no `.`; an extension exists exactly when the segment has a `.`, and then key, `.` and extension make up the segment; otherwise the key is the segment |
| Handlers.SplitJoin | src/main.rs:173-175 | a key without `.`, joined to any extension, splits back into that key and extension |
| Handlers.SkipTaken | src/main.rs:148-150 | a draw that gives a taken identifier is skipped, and the search from the next draw settles on the same identifier |
| Handlers.Replace | src/main.rs:197 | every character of the result is a character of the input other than the pattern, or one of the replacement text (Handlers.ReplacePlain, Handlers.ReplaceAt and Handlers.ReplaceAppend fix the result exactly) |
| Handlers.ReplaceRemoves | src/main.rs:197 | replacing every character `c` by text without `c` leaves no `c` |
| Handlers.ReplacePlain | src/main.rs:197 | text without the character is left unchanged |
| Handlers.ReplaceAppend | src/main.rs:197 | the replacement of two pieces joined is the two replacements joined |
| Handlers.ReplaceAt | src/main.rs:197 | a `c` between two pieces becomes the replacement text, and each piece is replaced on its own |
| Handlers.WrapLines | src/main.rs:195-198 | the HTML starts with `<code>`, ends with `</code>` and has no newline |
| Handlers.WrapFirstLine | src/main.rs:195-198 | a first line without newlines ends up unchanged in its own `<code>` element, followed by the wrapping of the rest |
| Handlers.WrapLinesElements | src/main.rs:195-198 | for lines without newlines joined by newlines, the HTML is each line, unchanged, inside its own `<code>` element, in order |
| Handlers.WrapLinesCount | src/main.rs:195-198 | for code without `<`, the HTML has one opening `<code>` per line: the number of newlines plus one |
| Handlers.ShowPaste | src/main.rs:167-204 | an unknown key gives NotFound; plain-text requests get the bytes; otherwise invalid UTF-8 is an error, an extension without a highlighter gives NotFound, and the highlighted or escaped text is wrapped line by line |

## Left out

- The `RwLock` around the store (`src/io.rs:7`, 39, 51). Each `store_paste` and `get_paste` call is one atomic step of the model; concurrent interleavings are not modelled.
- The random source (`thread_rng`, `Uniform`). It becomes a parameter: the drawn indices. Uniformity and the absence of collisions in practice are statistical claims and are not modelled.
- The retry loop has no bound in the source. `Handlers.ChooseId` requires that some draw in the given sequence is free; a run in which every draw collides forever is not modelled.
- `PasteDiskRepository` (`src/main.rs:13`, filesystem I/O). `src/io.rs` as it stands does not define it, so it is not part of this model. `Repository.MemoryRepository` implements the same interface over a map, and a rejected write is an input fault.
- Handlers.Submit: the panic of `.expect("Failed creating file")` is modelled as an `Aborted` outcome that leaves the pastes as they were.
- Handlers.SubmitRaw: the same panic (`src/main.rs:157`) is modelled the same way, as an `Aborted` outcome that leaves the pastes as they were.
- HTTP routing, extractors, response building, server start-up and the directory check (`src/main.rs:68-110`). The handlers are modelled by what they compute, not by their responses.
- Askama templates, `render_template`, `index` and `highlight_css` (`src/main.rs:112-118`, 161-165, 206-229). `Handlers.ShowPaste` returns the HTML fragment that would be handed to the template.
- Syntax highlighting (`highlight`, syntect) and `htmlescape::encode_minimal`. They are parameters of `Handlers.ShowPaste` whose results are taken as given.
- Handlers.WrapLinesCount: it requires input without `<`. HTML escaping produces such text, but the escaping function is a parameter, so this is not proved for it.
- CLI parsing with argh, logging and the `max_paste_size` limit.
