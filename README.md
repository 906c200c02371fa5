# stl-reader: binary STL loading, modelled in Dafny

This project models the loader at the heart of stl-reader. The loader reads a
binary STL file into an indexed mesh: one copy of every distinct vertex, three
vertex numbers per triangle, and one 16-bit attribute per triangle. The model
covers the whole path:

- `check_stl_format` classifies the file as ASCII, binary or invalid.
- `loadstl` reads the 84-byte header and sizes the buffers. It then reads
  `ntris` 50-byte records and numbers each corner through `vertex`.
- `vertex` is a linear-probing hash table of `nextpow2(4 * ntris)` slots. It
  is keyed by `final96` of the corner's three coordinate words.
- The word helpers of `hash96.h` (`nextpow2`, `rot32`, `final96`, `cmp96`,
  `copy96`) sit under all of it.

The modules follow the two source files:

- `Hash96` (hash96.dfy) holds the word helpers of stl_reader/hash96.h. Words
  that are computed with are `bv32`, so they wrap as `uint32_t` does.
- `StlFile` (stlfile.dfy) holds `get16`/`get32`, the C string tests and the
  format check. It also has `Load`, a definition of what `loadstl` returns
  that does not use the hash table. Vertices are numbered by first
  occurrence, and the table only decides when the loader gives up. The
  properties of the loaded mesh are proved about `Load`.
- `VertexTable` (vertex.dfy) holds the probe loop of `vertex`. It is a
  method over the slot array, with the table invariant `Table`.
- `Loader` (loader.dfy) holds `loadstl` step by step: methods over arrays
  with loop invariants. The one departure is that its buffers are allocated
  at their full sizes, not at the 32-bit sizes the program computes (see
  Findings). With that correction `LoadStl` is proved to return exactly
  `Load` of the file, error cases included. The program itself agrees with
  `Load` only for counts whose allocation sizes do not wrap.

A file is modelled as `Option<seq<Byte>>`, where a `Byte` is a number below
256 and `None` is a stream that could not be opened. A read is a slice. A
coordinate is the 32-bit pattern it is stored as.

Some behaviour of the code is easy to miss, and the model keeps it:

- A file is ASCII only when it starts with "solid " and the line read after
  that starts with "facet ". A file whose first line is "solid name" falls
  through to the binary size check.
- After an ASCII verdict the stream is not rewound. `loadstl` reads a binary
  header from the end of that first line, because there is no ASCII decoder
  in the code.
- The binary size check compares the size with `84 + 50 * ntris` in 32-bit
  arithmetic, not exactly.
- The vertex table never grows. A full table is a failure with status -1.

## Model

| member | source | states |
|---|---|---|
| Hash96.NextPow2Rounds | stl_reader/hash96.h:26-36 | for 1 <= v <= 2^31 the result is a power of two, at least `v`, and its half is below `v` |
| Hash96.NextPow2OfPow2 | stl_reader/hash96.h:29-35 | a power of two rounds to itself ("2 for 2, 4 for 4") |
| Hash96.NextPow2Wraps | stl_reader/hash96.h:29-35 | 0 and every input above 2^31 give 0, by wrap-around |
| Hash96.NextPow2AsInt | stl_reader/hash96.h:26-36 | on any input the result is 0 or a power of two no larger than 2^31, which divides 2^32 |
| Hash96.TableCapacity | stl_reader/hash96.h:26-36 | for 1 <= n <= 2^29, `nextpow2(4n)` is a divisor of 2^32 in (0, 2^31] with room for `4n` keys |
| Hash96.LeastPow2From | stl_reader/hash96.h:26-36 | the integer reference: the first of `p, 2p, 4p, ...` that is at least `v`, below `2v` unless it is `p` |
| Hash96.LeastPow2Is | stl_reader/hash96.h:26-36 | the search stops at the power `c` of the doubling sequence with `v <= c < 2v` |
| Hash96.NextPow2Value | stl_reader/hash96.h:26-36 | the bit-smearing computation equals the integer reference on every 32-bit input |
| Hash96.Rot32Inverse | stl_reader/hash96.h:47 | rotating by `k` and then by `32 - k` gives the word back, so `rot32` is a rotation |
| Hash96.Final96Invertible | stl_reader/hash96.h:48-59 | the hash is the last `c` of the seven xor/subtract/rotate rounds, and running the rounds backwards recovers the key |
| Hash96.Diff32 | stl_reader/hash96.h:64 | the wrapping difference of two words is 0 exactly when they are equal |
| Hash96.Cmp96 | stl_reader/hash96.h:61-65 | the result is 0 exactly when the key and the three buffer words agree word for word |
| Hash96.Copy96 | stl_reader/hash96.h:67-73 | the three target words become the source words; no other word of `dst` changes and `src` is not written |
| StlFile.Get16AsBits | src/stlfile.cpp:56-58 | the byte assembly of `get16` is the number `b0 + 2^8 b1` |
| StlFile.Get16OfLe16 | src/stlfile.cpp:56-58 | `get16` of the little-endian encoding of `x` is `x` |
| StlFile.Le16OfGet16 | src/stlfile.cpp:56-58 | encoding what `get16` read gives the two bytes back |
| StlFile.Get32AsBits | src/stlfile.cpp:60-63 | the byte assembly of `get32` is the number `b0 + 2^8 b1 + 2^16 b2 + 2^24 b3` |
| StlFile.Get32OfLe32 | src/stlfile.cpp:60-63 | `get32` of the little-endian encoding of `x` is `x` |
| StlFile.Le32OfGet32 | src/stlfile.cpp:60-63 | encoding what `get32` read gives the four bytes back |
| StlFile.QuadCount | src/stlfile.cpp:155-161 | `4 * ntris` in 32-bit arithmetic is four times the count modulo 2^32 |
| StlFile.TableSizeOf | src/stlfile.cpp:161 | `nextpow2(4 * get32(buf + 80))` is the table size for the count the header holds |
| StlFile.StrNEqPrefix | src/stlfile.cpp:105 | string equality against a pattern without NUL holds exactly when the input starts with the pattern |
| StlFile.SolidTest | src/stlfile.cpp:101-105 | `strcmp(sixBytes, "solid ") == 0` exactly when the file starts with "solid " |
| StlFile.LineFrom | src/stlfile.cpp:107 | `fgets` reads a slice of the file from the position, with no newline before its last byte; it ends at a newline, at end of file or when the room is used up |
| StlFile.StrNEqNul | src/stlfile.cpp:108 | `strncmp` of a NUL-terminated line against a pattern holds exactly when the line starts with the pattern |
| StlFile.FacetTest | src/stlfile.cpp:106-110 | the `strncmp(line, "facet ", 6)` test holds exactly when bytes 6 to 11 are "facet " |
| StlFile.LineReaches | src/stlfile.cpp:107 | `fgets` with room for 100 bytes reads at least `k` bytes when none of them is a newline |
| StlFile.FacetLine | src/stlfile.cpp:106-108 | when "facet " follows "solid ", the line `fgets` reads holds at least those six bytes |
| StlFile.AsciiVerdict | src/stlfile.cpp:86-112 | the verdict is ASCII exactly when the file starts with "solid " followed by "facet " |
| StlFile.FormatVerdict | src/stlfile.cpp:86-128 | no file or under 15 bytes: invalid; "solid " then "facet ": ASCII; otherwise binary exactly when at least 84 bytes and the size is `84 + 50n` modulo 2^32, else invalid |
| StlFile.DataStartAt | src/stlfile.cpp:101-127 | where `loadstl` goes on reading: at byte 0 unless the verdict is ASCII; for ASCII, right after the line `fgets` read from byte 6, which ends at a newline, at end of file or after 99 bytes |
| StlFile.LoadStatus | src/stlfile.cpp:140-210 | `loadstl` returns -2 exactly when the format check failed, and -1 for every failure after it; an invalid format always ends in -2 |
| StlFile.AddCornersError | src/stlfile.cpp:169-194 | the main loop's only failure of its own is a full table, so after a passing check the loader never reports an invalid format |
| StlFile.WordsInjective | src/stlfile.cpp:80 | two vertices are equal exactly when their three words are |
| StlFile.FlattenRow | src/stlfile.cpp:186-188 | vertex `k` occupies words `3k` to `3k + 2` of the vertex buffer |
| StlFile.IndexOf | src/stlfile.cpp:72-82 | the number of the first vertex equal to the key, with no equal vertex before it, or the vertex count if there is none |
| StlFile.DistinctAppend | src/stlfile.cpp:186-188 | appending a vertex not yet stored keeps the vertices pairwise different |
| StlFile.Available | src/stlfile.cpp:169-173 | the count of records that fit before the first short read |
| StlFile.CornerListAt | src/stlfile.cpp:175-179 | entry `3q + t` of the corner list is corner `t` of record `q`, read from bytes `12 + 12t` on |
| StlFile.AttrListAt | src/stlfile.cpp:193 | entry `q` of the attribute list is the 16-bit word at byte 48 of record `q` |
| StlFile.NumberedReuse | src/stlfile.cpp:180-191 | numbering a corner with a vertex already stored keeps the numbering invariant |
| StlFile.NumberedFresh | src/stlfile.cpp:186-191 | numbering a new vertex with the next number keeps the numbering invariant |
| StlFile.AddCornerNumbered | src/stlfile.cpp:180-191 | one corner keeps the numbering invariant: distinct vertices, numbers in range, every vertex used, first-seen order |
| StlFile.AddCornerShape | src/stlfile.cpp:180-191 | one corner appends one vertex number, naming a stored vertex equal to the corner; earlier numbers and vertices stay |
| StlFile.AddCornersNumbered | src/stlfile.cpp:169-194 | numbering corners in order keeps the numbering invariant |
| StlFile.AddCornersShape | src/stlfile.cpp:169-194 | corners in order: one number per corner, each naming a stored vertex equal to its corner; earlier state kept |
| StlFile.AddCornersRoom | src/stlfile.cpp:181-185 | with room for every corner the table never fills, and at most one vertex is added per corner |
| StlFile.AddCornersFails | src/stlfile.cpp:181-184 | a failing corner ends the loop with that failure, whatever follows |
| StlFile.DecodeShape | src/stlfile.cpp:169-194 | a successful loop read all records and has `3n` vertex numbers in range, at most `3n` vertices and `n` attributes |
| StlFile.DecodeCorners | src/stlfile.cpp:175-191 | after a successful loop every corner read is numbered with a stored vertex equal to it |
| StlFile.DecodeAttr | src/stlfile.cpp:193 | after a successful loop attribute `q` is that of record `q` |
| StlFile.DecodeCornerRow | src/stlfile.cpp:175-191 | after a successful loop corner `t` of record `q` is, word for word, the buffer row its number names |
| StlFile.DecodeNumbered | src/stlfile.cpp:168-194 | a successful loop numbers vertices by first occurrence |
| StlFile.DecodeRoom | src/stlfile.cpp:181-185 | with three slots per record the table never fills, and with every record present the loop succeeds |
| StlFile.LoadedShape | src/stlfile.cpp:196-203 | an 80-byte comment, `3 * nverts` words, `3 * ntris` numbers all below `nverts`, `ntris` attributes, `nverts <= 3 * ntris`, and every record was in the file |
| StlFile.LoadedCorner | src/stlfile.cpp:175-191 | the row `verts[3 * tris[3q + t]..+3]` equals the words of corner `t` of record `q` |
| StlFile.LoadedAttr | src/stlfile.cpp:193 | `attrs[q]` is the little-endian 16-bit word at bytes 48-49 of record `q` |
| StlFile.LoadedNumbering | src/stlfile.cpp:168-194 | the vertex rows are pairwise different, every vertex is used, and vertex `v` is first used after vertex `v - 1` |
| StlFile.TableRoom | src/stlfile.cpp:161 | for at most 2^29 triangles the table has at least three slots per triangle |
| StlFile.NeverFull | src/stlfile.cpp:161-185 | with at most 2^29 triangles announced the load never fails with a full table |
| StlFile.BinaryStart | src/stlfile.cpp:119-127 | a binary verdict means at least 84 bytes, a size of `84 + 50n` modulo 2^32, and loading from byte 0 |
| StlFile.SizedLoads | src/stlfile.cpp:122 | a file whose size matches its header modulo 2^32 loads exactly when `84 + 50n` does not wrap |
| StlFile.BinaryLoads | src/stlfile.cpp:119-203 | a file with a binary verdict loads exactly when its size `84 + 50n` did not wrap around 2^32 in the check |
| VertexTable.Pigeonhole | src/stlfile.cpp:72-83 | `k` different slot numbers below `n` need `k <= n` |
| VertexTable.Probe | src/stlfile.cpp:73 | every probed slot is in `[0, vhtcap)` |
| VertexTable.ProbeMask | src/stlfile.cpp:73 | `(hash + i)` modulo 2^32, reduced modulo the power-of-two capacity, is probe `i` from `hash % vhtcap` |
| VertexTable.ProbeReaches | src/stlfile.cpp:72-73 | the first `vhtcap` probes from any start visit every slot |
| VertexTable.TableBound | src/stlfile.cpp:72-83 | a table holds at most as many vertices as it has slots |
| VertexTable.TableVacant | src/stlfile.cpp:75-77 | no vertex sits in an empty slot, so a table with an empty slot has room for one more |
| VertexTable.TableFull | src/stlfile.cpp:72-83 | a probe sequence of taken slots means at least as many vertices as slots |
| VertexTable.HashedAppend | src/stlfile.cpp:71 | recording the `final96` start slot of one more vertex keeps the start slots right |
| VertexTable.VertexNumberCases | src/stlfile.cpp:65-84 | a number below `nverts` names the first stored vertex equal to the key; `nverts` means the key is new and there is room; `~0` means it is new and the table holds `vhtcap` vertices |
| VertexTable.SearchStep | src/stlfile.cpp:79-81 | passing a slot taken by another vertex keeps any copy of the key further along the probe |
| VertexTable.TableMiss | src/stlfile.cpp:75-77 | reaching an empty slot means the key is not stored |
| VertexTable.TableInsert | src/stlfile.cpp:76 | writing `nverts + 1` into the empty slot the probe reached keeps the table consistent |
| VertexTable.StoredFlatten | src/stlfile.cpp:186-188 | a buffer holding the vertices starts with their flattened words |
| VertexTable.VertexAgrees | src/stlfile.cpp:65-84 | the table's answer is the table-free numbering's next step: `~0` exactly when that step fails, else the number it records |
| VertexTable.VertexFound | src/stlfile.cpp:80-81 | among pairwise different vertices, a match at `vi` makes `vi` the answer |
| VertexTable.VertexFresh | src/stlfile.cpp:75-77 | an empty slot after taken ones means a new key with number `nverts`, and storing it keeps the table consistent |
| VertexTable.VertexFull | src/stlfile.cpp:83 | `vhtcap` probes with neither a match nor an empty slot mean the answer is `~0` |
| VertexTable.Hash | src/stlfile.cpp:71 | `final96` of the key is a 32-bit number; its start slot is the recorded one of every stored equal vertex |
| VertexTable.Vertex | src/stlfile.cpp:65-84 | the answer is the numbering's; on a new key exactly one empty slot now holds `nverts + 1` and the table stays consistent; otherwise the table is unchanged |
| Loader.AvailableAt | src/stlfile.cpp:169-173 | if record `i` is the first that does not fit, `i` records are available |
| Loader.AvailableAtLeast | src/stlfile.cpp:169-173 | every record that fits is available |
| Loader.StoredCopy | src/stlfile.cpp:186-188 | copying the key to words `3 * nverts` on stores it as the next vertex and keeps the others |
| Loader.RunStep | src/stlfile.cpp:175-192 | each step of the corner run numbers one corner, and the run stops exactly where a corner finds the table full |
| Loader.RunResult | src/stlfile.cpp:169-194 | a run that numbered every corner ends where the table-free loop does; one that stopped early means a full table |
| Loader.RunCorner | src/stlfile.cpp:180-189 | the number `vertex` gives is `~0` exactly where the run stops, and otherwise the run's next step |
| Loader.Get32Within | src/stlfile.cpp:170-179 | a field read from the copy of a record is the field read from the file |
| Loader.RecordCorner | src/stlfile.cpp:177-179 | a corner read from the copied record is that record's corner in the file |
| Loader.RecordAttr | src/stlfile.cpp:193 | the attribute read from the copied record is that record's attribute in the file |
| Loader.RecordFields | src/stlfile.cpp:170-193 | the corners and attribute of copied record `i` are entries `3i..3i+2` and `i` of the lists |
| Loader.DecodeRun | src/stlfile.cpp:169-194 | the loop's outcome is a full table if the run stops early, else a short read if a record is missing, else the run's last numbering with the attributes |
| Loader.ReadCorner | src/stlfile.cpp:176-179 | the three words read into `vert` are corner `t` of the record |
| Loader.TableSlots | src/stlfile.cpp:161 | `nextpow2(4 * ntris)` is the table size for the count, and 0 or a power of two dividing 2^32 |
| Loader.AppendVertex | src/stlfile.cpp:186-188 | `copy96(verts + 3 * nverts, vert)` stores the key as the next vertex |
| Loader.SetNext | src/stlfile.cpp:191-193 | writing the next entry extends the written prefix by it |
| Loader.HoldsStart | src/stlfile.cpp:163-168 | an all-zero table and empty buffers hold the numbering of no corners |
| Loader.HoldsAll | src/stlfile.cpp:194-197 | buffers holding the numbering of all corners give its flattened vertices and its numbers |
| Loader.HoldsNext | src/stlfile.cpp:180-191 | numbering one corner moves the buffers to the run's next numbering, unless the table is full where the run stops |
| Loader.NumberCorner | src/stlfile.cpp:176-191 | corner `t` gets the numbering's number; on success the buffers hold the numbering extended by it |
| Loader.NumberStep | src/stlfile.cpp:176-191 | a corner step succeeds exactly when the run gets past the corner, and then the buffers hold the run's next numbering |
| Loader.ReadRecord | src/stlfile.cpp:175-192 | the three corners of a record are taken exactly when the run gets past them, and then the buffers are three steps further on |
| Loader.ReadTriangle | src/stlfile.cpp:170-193 | record `i` is taken in full exactly when the run gets past it, and then the buffers and the attribute prefix reach record `i + 1` |
| Loader.ReadRecords | src/stlfile.cpp:168-194 | the loop ends with a full table, a short read or success, as the run and the record count say; on success the buffers are the run's last numbering and the attributes |
| Loader.ReadTriangles | src/stlfile.cpp:168-194 | the main loop's result and buffers are what the table-free loop gives, failures included |
| Loader.TrisAllocatedAsWritten | src/stlfile.cpp:157 | the triangle buffer as written has `3 * ntris` entries exactly when that does not wrap around 2^32, and fewer otherwise |
| Loader.VertsAllocatedAsWritten | src/stlfile.cpp:159 | the vertex buffer as written has `9 * ntris` words exactly when that does not wrap around 2^32, and fewer otherwise |
| Loader.ThreeCorners | src/stlfile.cpp:175-191 | a first record numbered with at least three slots gets three numbers, and three vertices when its corners differ |
| Loader.FirstRecordOverflows | src/stlfile.cpp:157-191 | for 0x1C71C71D triangles the vertex buffer as written has 5 words while the first record can store 9; for 0x55555556 the triangle buffer has 2 entries while the first record stores 3 |
| Loader.LoadFrom | src/stlfile.cpp:146-203 | after a passing check, reading the header, allocating `3 * ntris` numbers and `9 * ntris` words, and looping gives exactly the table-free load, errors included |
| Loader.LoadStl | src/stlfile.cpp:130-211 | `loadstl`, with the buffers allocated at their full sizes, on an opened or missing file gives exactly `Load`: an invalid format, a short header, a short record, a full table, or the mesh |

## Left out

- `GetStlData` and `NB_MODULE` are left out. They are the Python binding, exception translation and array wrapping, which are foreign calls.
- The `FILE*` calls (`fopen`, `fseek`, `ftell`, `fread`, `fgets`, `rewind`) are left out. The file is a byte sequence, a read is a slice, and a stream that failed to open is `None`.
- The `printf` and `fprintf` diagnostics are left out.
- `fread(&nTriangles, ...)` reads the count in host byte order. The model reads it little-endian, as `get32` does.
- `malloc` returning NULL is not modelled. `free` and the `realloc` trim are modelled only by their effect: the vertex output is the first `3 * nverts` words.
- The model always copies the 80-byte comment. The case where the caller passes no comment buffer is not distinguished.
- On failure the model returns only the error, with no outputs, as the code frees every buffer.
- VertexTable.Vertex: the slot `(hash + i) & (vhtcap - 1)` is computed as `((hash + i) mod 2^32) mod vhtcap`. For a power-of-two capacity these are the same value, but the bit-level identity is not proved.
- Loader.LoadFrom: the triangle and vertex buffers are allocated at `3 * ntris` and `9 * ntris` entries, not at the 32-bit products the code computes. So `LoadStl` matches the program only for counts whose allocations do not wrap, below 0x1C71C71D triangles. For larger counts the program writes past its buffers (see Findings), and the model returns `Load`'s answer.
- Loader.LoadFrom: buffer indices such as `3 * i + ti` are unbounded integers, not 32-bit. They could only wrap for counts where the allocation sizes already wrap (see Findings).
- The coordinates are never read as floats. Keys are 32-bit patterns, compared bit for bit, as `cmp96` does.
- There is no ASCII decoder and no table growth in the code, so neither is modelled.

## Findings

| source | as written | input that shows it | evidently intended | confidence | as-written member | corrected member |
|---|---|---|---|---|---|---|
| src/stlfile.cpp:157 | `ntris * 3` is computed in 32 bits before it is scaled to bytes, so for `ntris >= 0x55555556` the triangle buffer is smaller than `3 * ntris` entries | A file starting with "solid facet " followed by a newline. After that comes an 84-byte header announcing 0x55555556 triangles, then one record. The ASCII verdict skips the size check, the buffer gets 2 entries, and the first record writes 3 | a buffer of `3 * ntris` entries, or a rejected count | high (not executed) | Loader.TrisAllocatedAsWritten, Loader.FirstRecordOverflows | Loader.LoadFrom |
| src/stlfile.cpp:159 | `3 * ntris * 3` is computed in 32 bits, so for `ntris >= 0x1C71C71D` the vertex buffer is smaller than `9 * ntris` words | The same kind of file with a header announcing 0x1C71C71D triangles and a first record with three different corners. The buffer gets 5 words, and the first record writes 9. A binary file of 2,386,093,054 bytes with the same count also passes the size check, because `84 + 50 * ntris` wraps to exactly that size | a buffer of `9 * ntris` words, or a rejected count | high (not executed) | Loader.VertsAllocatedAsWritten, Loader.FirstRecordOverflows | Loader.LoadFrom |
