# String interner model

A Dafny model of a small string interner written in Rust. The interner
stores each distinct string once, in an append-only list. A `Symbol` is the
position of its string in that list. A content-keyed index (`mapping`)
finds the position of a string that is already stored, so interning the same
text twice yields the same symbol. An optional serde adapter writes a symbol as
its text and reads text back by interning it again.

The model has three modules:

- `InternTable` (`table.dfy`) states lookup-or-insert on values. `Table`
  holds `values` and `mapping`. `Valid` is the table invariant: the values are
  pairwise distinct, and `mapping` is exactly the inverse of `values`. `Intern`
  is one call of symbol creation. `InternAll` is a run of such calls. The
  lemmas prove what interning promises: the invariant is kept, the text reads
  back, symbols deduplicate, and growth never changes stored text.
- `Interner` (`interner.dfy`) is the mutable state as a class `State` with the
  fields `values: seq<string>` and `mapping: map<string, nat>`. `New` updates
  them in place, with the same early return on a hit as the Rust code. Each
  method is proved to do exactly what `Intern` does to the table's value.
  `AsRef`, `Display` and `Deref` read the stored text. `Default` and `From`
  intern through `New`. Client methods replay the documented scenarios, on a
  fresh table or, for formatting, on any valid table.
- `Serialization` (`serialization.dfy`) is the serde adapter at the string
  level. It covers encoding to text, decoding by re-interning, and the round
  trip, both as a lemma on the table's value and as encode-then-decode on the
  state.

The Rust `Symbol` derives `Clone`, `Copy` and `Hash` but not `PartialEq`. In
the model a symbol is the datatype `Symbol(index: nat)`, so symbol equality
is index equality. `SymbolEqualityIsContentEquality` proves that, under the
table invariant, index equality and content equality coincide.

## Model

| member | source | states |
|---|---|---|
| `InternTable.Valid` | src/lib.rs:11-14 | The table invariant: stored strings are pairwise distinct, `mapping[values[i]] == i` for every position, and every key `k` of `mapping` satisfies `values[mapping[k]] == k`. Its contract states the consequence that the keys of `mapping` are exactly the stored strings. |
| `InternTable.Intern` | src/lib.rs:22-34 | If the string is already stored, the table is unchanged and the stored index is returned. Otherwise exactly one entry is appended at index `old |values|`, exactly one key is added and maps to that index, and that index is returned. Keys already present keep their index, and `values` only grows. |
| `InternTable.InternAll` | src/lib.rs:22-34 | A run of interning calls gives one symbol per call and only extends `values`. |
| `InternTable.InternValid` | src/lib.rs:23-34 | Interning keeps the invariant: values stay distinct and `mapping` stays their inverse. The returned index is in bounds, reads back exactly the given string, and is what `mapping` records for it. |
| `InternTable.SymbolEqualityIsContentEquality` | src/lib.rs:7-8 | Two issued symbols are equal (same index) if and only if their stored texts are equal. |
| `InternTable.InternIdempotent` | src/lib.rs:23-25 | Interning a string again right after interning it returns the same symbol and leaves the table unchanged. |
| `InternTable.InternAllPresent` | src/lib.rs:23-25 | Interning an already stored string any number of times returns its stored index every time. The table is left unchanged. |
| `InternTable.RepeatedInternAddsOneEntry` | src/lib.rs:23-34 | Interning one content n > 0 times gives the same symbol every time. It adds exactly one entry if the content was new and none if it was already stored. |
| `InternTable.InternAllFaithful` | src/lib.rs:26-34 | After any run of interning calls, the invariant holds. Each returned symbol still reads back the string it was made from. Every symbol issued before the run keeps its text (stability under growth). |
| `InternTable.InternAllDedup` | src/lib.rs:23-33 | Within any run of interning calls, two calls return the same symbol if and only if they were given the same string. |
| `Interner.State.constructor` | src/lib.rs:10-14 | A new table is empty and satisfies the invariant. |
| `Interner.State.New` | src/lib.rs:18-35 | Symbol creation changes the state exactly as `Intern` changes the table's value. It keeps the invariant, and the returned symbol is in bounds with stored text equal to the argument. |
| `Interner.State.AsRef` | src/lib.rs:38-44 | Reading an issued symbol gives the text that `mapping` maps back to that same symbol's index. |
| `Interner.State.Default` | src/lib.rs:47-51 | The default symbol is the result of interning the empty string, with the same effect on the table. |
| `Interner.State.From` | src/lib.rs:54-61 | Conversion has exactly the result and effect of interning its argument. |
| `Interner.State.Display` | src/lib.rs:71-75 | Formatting a symbol with the plain `{}` specifier renders its own text: interning the rendered text returns that same symbol and leaves the table unchanged. |
| `Interner.State.Deref` | src/lib.rs:78-84 | The view of a symbol is the text stored at its index, and no other issued symbol has that text. |
| `Interner.FormatFoo` | src/lib.rs:149-152 | Formatting the symbol of "foo" yields "foo". |
| `Interner.FormatInterned` | src/lib.rs:149-152 | For every string `s` and every valid table, interning `s` and formatting the symbol yields exactly `s`. The table changes exactly as interning `s` changes it. |
| `Interner.EqualityScenario` | src/lib.rs:23-34 | Interning "a", "b", "a" gives equal symbols for the two "a"s and a different one for "b". Two entries are stored. |
| `Interner.DefaultIsEmptyString` | src/lib.rs:47-51 | `default()` and the symbol of "" are the same symbol, even on a table that already holds other strings. |
| `Serialization.Serialize` | src/lib.rs:108-115 | The encoded form is the stored text, which `mapping` maps back to the symbol's index. |
| `Serialization.Deserialize` | src/lib.rs:127-141 | Decoding a string (borrowed or owned) interns it. When the string is the text of an already issued symbol, decoding returns that symbol and leaves the table unchanged. |
| `Serialization.EncodeThenDecode` | src/lib.rs:110-141 | Serializing an issued symbol and deserializing the text through the same table returns that symbol and leaves the table unchanged. |
| `Serialization.RoundTrip` | src/lib.rs:110-140 | Interning the encoded text of an issued symbol in the same table returns that symbol and leaves the table unchanged. |

## Left out

- The process-wide table behind `OnceLock` and `RwLock` (src/lib.rs:22, 41, 87-92). Locking and lazy one-time initialisation are concurrency plumbing. The model uses one explicitly constructed `State`, and each operation runs to completion. Concurrent interning is represented only by sequential runs (`InternAll`).
- The `unsafe` lifetime widening with `std::mem::transmute` (src/lib.rs:32, 43). It is a Rust memory-safety argument. What it promises, that text read from a symbol stays valid and unchanged as the table grows, is proved as stability in `InternAllFaithful`.
- `Debug` formatting (src/lib.rs:64-69). Its quoting and escaping come from the Rust standard library's string-literal formatter, which is not part of this model.
- Display: only the plain `{}` specifier is modelled, which writes the stored text unchanged. The caller's width, fill, alignment and precision options are applied by the Rust standard library's `str` formatter, which pads or truncates the text. Like `Debug`, that formatter code is not part of this model.
- The derived `Hash` of `Symbol` and the hashing inside `HashMap`. The index is a Dafny `map`, whose lookup is by content equality.
- New and From: the Rust `new` reads its generic argument twice. It looks the argument up through `as_ref()` and stores the result of `into()`. The model takes one `string`, so it assumes both views give the same text. That holds for `&str`, `String` and the other standard string types. For a type whose two views differ, the Rust code can store a duplicate entry and overwrite its index, breaking deduplication. The model does not capture that.
- The serde `Serializer`, `Deserializer` and `Visitor` plumbing, the `expecting` message, and error propagation from the format (src/lib.rs:98-126). Only the string-level encode and decode are modelled.
- `AsRef`, `Display`, `Deref`, `Serialize`: these require the symbol to be issued by the table they read. In Rust a symbol can only come from `new`, so an out-of-bounds read cannot happen there.
- Memory exhaustion from unbounded growth is not modelled. Integers are unbounded, so `usize` overflow of the index is not modelled either.
