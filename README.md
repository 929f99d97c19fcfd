# TileDB filter names

A Dafny model of the naming table of TileDB's filter kinds, as the C++ API
gives it in `tiledb/sm/cpp_api/filter.h`. Three pieces are modelled:

- the static `Filter::to_str`, which maps each case of the filter-type
  enumeration to its display name;
- the stream operator `operator<<`, which writes a filter as `Filter<NAME>`;
- inverses that the model adds so that round trips can be stated: the
  reverse lookup `FromStr`; `ParseFormatted`, which reads one `Filter<NAME>`
  back from the front of a stream, with the helper `IndexOf` that finds
  the first `>`; and `FromFormatted`, which reads a whole
  `Filter<NAME>` back as a kind.

`FilterType` has one constructor for each of the eleven cases of
`tiledb_filter_type_t`: NONE, GZIP, ZSTD, LZ4, RLE, BZIP2, DOUBLE_DELTA,
BIT_WIDTH_REDUCTION, BITSHUFFLE, BYTESHUFFLE and POSITIVE_DELTA. It has one extra
constructor, `Unknown(raw)`. A C enum variable can hold an integer that names
none of its cases; for such a value `to_str` falls out of the `switch` and
returns `""`. The header that gives the cases their numbers (`tiledb.h`) is not
part of this model, so `raw` is an opaque code. The model does not decode
integers into cases.

`operator<<` appends to a `std::ostream`. The model writes that as the string
`Format(t)`, and the stream's earlier and later contents as ordinary string
concatenation.

Files: `wrappers.dfy` (the `Option` type), `filter.dfy` (module `FilterNames`).

## Model

| member | source | states |
|---|---|---|
| FilterNames.ToStr | tiledb/sm/cpp_api/filter.h:175-201 | the name is empty exactly for values outside the enumeration; no name contains `<` or `>` |
| FilterNames.NamedKindsComplete | tiledb/sm/cpp_api/filter.h:176-199 | the table of named kinds holds exactly the eleven cases of the `switch` |
| FilterNames.NamedKindsDistinct | tiledb/sm/cpp_api/filter.h:176-199 | the eleven names returned by the `switch` are pairwise different |
| FilterNames.Find | tiledb/sm/cpp_api/filter.h:176-199 | a kind found under a name is in the table and has that name; when nothing is found, no kind of the table has that name |
| FilterNames.FindComplete | tiledb/sm/cpp_api/filter.h:176-199 | in a table without repeated names, each kind is found under its own name |
| FilterNames.FromStr | tiledb/sm/cpp_api/filter.h:175-201 | the reverse lookup returns only named kinds carrying the given name, and returns nothing exactly when no named kind has that name |
| FilterNames.FromStrToStr | tiledb/sm/cpp_api/filter.h:175-201 | round trip: the reverse lookup of the name of any named kind returns that kind |
| FilterNames.FromStrEmpty | tiledb/sm/cpp_api/filter.h:200 | the empty name, which the fallback returns, is the name of no named kind |
| FilterNames.ToStrInjective | tiledb/sm/cpp_api/filter.h:176-199 | two named kinds with the same name are the same kind |
| FilterNames.NoneIsNoop | tiledb/sm/cpp_api/filter.h:177-178 | `TILEDB_FILTER_NONE` is shown as "NOOP"; "NOOP" looks up to it, and "NONE" looks up to nothing |
| FilterNames.Format | tiledb/sm/cpp_api/filter.h:219-221 | the stream form is 8 characters longer than the name, starts with `Filter<`, ends with `>` and holds exactly the name in between |
| FilterNames.ParseFormatted | tiledb/sm/cpp_api/filter.h:220 | what is read back is a name without `>` and a remainder, and the input is `Filter<` + name + `>` + remainder |
| FilterNames.ParseFormattedComplete | tiledb/sm/cpp_api/filter.h:220 | the reader finds every name without `>`: `Filter<` + name + `>` + remainder reads back as that name and that remainder |
| FilterNames.FormatThenParse | tiledb/sm/cpp_api/filter.h:178-198 | whatever follows it on the stream, a formatted filter is read back as exactly its own name, because no name contains `>` |
| FilterNames.FromFormatted | tiledb/sm/cpp_api/filter.h:219-221 | a stream form read back as a kind is exactly the `Format` of that named kind |
| FilterNames.FormatRoundTrip | tiledb/sm/cpp_api/filter.h:219-221 | round trip: reading back the stream form of a named kind (strip `Filter<` and `>`, look the name up) returns that kind |
| FilterNames.FormatInjective | tiledb/sm/cpp_api/filter.h:219-221 | two named kinds with the same stream form are the same kind |
| FilterNames.FormatUnknown | tiledb/sm/cpp_api/filter.h:200 | the stream form is `Filter<>` exactly for values outside the enumeration |

## Left out

- The `Filter` constructors, `set_option`, `get_option` and `filter_type` (filter.h:74-168): each one forwards to the C API (`tiledb_filter_alloc`, `tiledb_filter_set_option`, `tiledb_filter_get_option`, `tiledb_filter_get_type`) or only manages the C handle (the constructor that adopts a pointer, the defaulted copy and move members, the pointer accessors), and the C API is not part of this model. This includes the default compression level of -1 noted at filter.h:145.
- Format: is modelled for a given filter kind. The `filter_type()` C API call that `operator<<` makes to obtain that kind is not modelled, and neither are stream state or stream errors.
- The ownership of the C object through `shared_ptr` and the deleter: memory management, with no observable logic here.
- The numeric values of the `tiledb_filter_type_t` cases, and decoding an integer into a case: `tiledb.h` is not part of this model.
- `core/src/capis/tiledb_queries.cc`: C API plumbing that forwards to the storage manager, loader, query processor and data generator, which are not part of this model, plus console output and file I/O.
- `tiledb/rest/capnp/query.cc`: a thin wrapper over Cap'n Proto message building and the JSON codec; the wire formats belong to those libraries.
- `examples/src/tiledb_update_dense_2.cc`: an example program that submits one write query; it has no logic of its own.
- The filter pipeline itself (chunking, forward and reverse transforms, chunk headers): its code is not part of this model, so its behaviour is not modelled.
