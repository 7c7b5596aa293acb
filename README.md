# Segment catalog and segment addressing of a segment-based search index

This project models the core of `src/core/index.rs` of the tantivy search engine
(an early version), as Dafny, and proves properties of that model.

- **Segment identity** (`SegmentAddressing.SegmentId`): a 128-bit UUID held as 16
  octets. Its id string is the 32-digit lowercase hexadecimal "simple" form of a UUID:
  the string representation of section 3 of RFC 4122 without hyphens. `Hex` defines that
  encoding and its exact inverse.
- **Segment addressing**: the four component kinds (`INFO`, `POSTINGS`, `TERMS`,
  `STORE`), their file suffixes, and the relative path of a component file (the id
  string followed by the suffix).
- **Storage** (`Storage.Directory`): the directory the index lives in, seen abstractly as a
  map from path to bytes plus the ordered log of sync requests (`FileSync(path)`,
  `DirectorySync`). It offers the operations the index uses: open for read, open for
  write, atomic write, sync of a file and sync of the directory.
- **Catalog** (`IndexMetas.IndexMeta`): the ordered list of published segment ids plus the
  schema. `Encode`/`Decode` give it a JSON-shaped form,
  `{"segments":["<hex id>",...],"schema":<schema>}`. Decode accepts exactly the outputs of
  Encode.
- **Index** (`Indexes.Index`): a class with the catalog `metas` and the `directory`. Its
  methods create, open, publish, sync, enumerate and load/save the catalog. A
  `Indexes.Segment` value pairs an index with a segment id.

The schema is opaque to this layer. It is modelled as `Schema(repr)`, the bytes it is
serialized as. `Schema::new()` is `EmptySchema()`, a placeholder that is never persisted:
`Open` either replaces it with the stored schema or discards the index.

Two behaviours differ from the code. An undecodable `meta.json` gives `InvalidData`,
where the code panics (`unwrap()` at src/core/index.rs:179). And the model is
sequential, so the gap between the append (line 133) and the snapshot (line 186) cannot
arise. Both are listed under "## Left out".

## Model

| member | source | states |
|---|---|---|
| `Hex.HexString` | src/core/index.rs:24-26 | the id string has two characters per byte, all lowercase hexadecimal digits |
| `Hex.HexStringAt` | src/core/index.rs:24-26 | digits 2k and 2k+1 are the high and the low nibble of byte k, so bytes are written in order, high nibble first |
| `Hex.ParseHexString` | src/core/index.rs:24-26 | parsing the hex string of a byte string gives back that byte string |
| `Hex.HexStringOfParse` | src/core/index.rs:24-26 | any text that parses is the hex string of what it parses to, so the encoding is canonical |
| `Hex.HexStringInjective` | src/core/index.rs:24-26 | different byte strings have different hex strings |
| `SegmentAddressing.SegmentId.UuidString` | src/core/index.rs:24-26 | the id string is exactly 32 lowercase hexadecimal digits |
| `SegmentAddressing.UuidStringInjective` | src/core/index.rs:16-26 | two segment ids with the same id string are the same id |
| `SegmentAddressing.PathSuffix` | src/core/index.rs:224-232 | every suffix starts with '.' and has at least four characters |
| `SegmentAddressing.PathSuffixInjective` | src/core/index.rs:224-232 | the suffixes ".info", ".idx", ".term" and ".store" of INFO, POSTINGS, TERMS and STORE are pairwise distinct |
| `SegmentAddressing.RelativePath` | src/core/index.rs:234-238 | the path is the 32-digit id string followed by the component's suffix, and has length 32 plus the suffix length |
| `SegmentAddressing.RelativePathInjective` | src/core/index.rs:234-238 | two (id, component) pairs give the same path only if the ids are equal and the components are equal |
| `Storage.Directory.Empty` | src/core/index.rs:71-73 | a new in-memory directory holds no files and has logged no sync |
| `Storage.Directory.OpenRead` | src/core/index.rs:177 | reading succeeds exactly when the file exists, gives its whole content, and otherwise fails with NotFound for that path |
| `Storage.Directory.OpenWrite` | src/core/index.rs:247 | opening for write creates or truncates exactly that file and logs no sync |
| `Storage.Directory.AtomicWrite` | src/core/index.rs:189 | the file's content is replaced by the new bytes in one step, and no other file changes |
| `Storage.Directory.Sync` | src/core/index.rs:142 | syncing an existing file appends one FileSync of that path to the log; a missing file fails with NotFound and logs nothing |
| `Storage.Directory.SyncDirectory` | src/core/index.rs:144 | appends one DirectorySync to the log |
| `IndexMetas.DecodeEncode` | src/core/index.rs:176-190 | decoding the saved catalog gives back the same segment list, in the same order, and the same schema |
| `IndexMetas.EncodeDecode` | src/core/index.rs:179 | a byte string decodes to a catalog only if it is that catalog's encoding, so garbage never decodes |
| `IndexMetas.EncodeInjective` | src/core/index.rs:187 | different catalogs are saved as different documents |
| `Indexes.MetaFileIsNoSegmentFile` | src/core/index.rs:65-67 | the catalog file "meta.json" is never the path of a segment component |
| `Indexes.Segment.OpenRead` | src/core/index.rs:240-243 | reading a component goes to that component's path in the index's directory: its content if it exists, NotFound for that path otherwise |
| `Indexes.Segment.OpenWrite` | src/core/index.rs:245-248 | opening a component for write creates or truncates exactly that component's path and returns a handle on it |
| `Indexes.Index.FromDirectory` | src/core/index.rs:102-107 | a new index uses the given directory and starts with an empty segment list and exactly the given schema (`IndexMeta::with_schema`) |
| `Indexes.Index.CreateInRam` | src/core/index.rs:71-74 | the new index has a fresh, empty in-memory directory, no segments, and `schema()` returns exactly the given schema |
| `Indexes.Index.Open` | src/core/index.rs:86-92 | opening fails with NotFound when meta.json is absent and with InvalidData when it does not decode; otherwise the index has that directory and exactly the stored catalog |
| `Indexes.Index.Segments` | src/core/index.rs:147-170 | one segment per catalog entry, in catalog order, each bound to this index and carrying that entry's id |
| `Indexes.Index.NewSegment` | src/core/index.rs:172-174 | the returned segment has the new id and belongs to this index; nothing is modified |
| `Indexes.Index.PublishSegment` | src/core/index.rs:132-136 | the segment list becomes the old list with the id appended once at the end; the schema is unchanged; a new id then occurs exactly once; only meta.json changes, and it now holds the encoded catalog |
| `Indexes.Index.Sync` | src/core/index.rs:138-145 | syncs the POSTINGS path, then the TERMS path, then the directory, and nothing else; stops with NotFound at the first missing file; no file content changes |
| `Indexes.Index.LoadMetas` | src/core/index.rs:176-182 | the catalog is replaced wholesale by the stored one; if meta.json is absent (NotFound) or does not decode (InvalidData), it fails and the catalog is unchanged |
| `Indexes.Index.SaveMetas` | src/core/index.rs:184-190 | meta.json holds the encoded catalog afterwards; no other file, no sync and not the catalog change |
| `Indexes.SaveThenLoad` | src/core/index.rs:176-190 | a save followed by a load succeeds and restores the identical catalog |
| `Indexes.PublishThenReopen` | src/core/index.rs:86-92 | after publishing any segment, reopening the directory succeeds and shows the old segments plus its id at the end, and the same schema; an id that was new occurs exactly once |

## Left out

- Locking: the `Arc<RwLock<..>>` guards are not modelled. Lock acquisition always succeeds, so the poisoned-lock errors of `rw_directory`/`ro_directory` and the `unwrap()` on the catalog lock do not appear. Index handles sharing state is modelled by the Index being one heap object that every Segment refers to.
- Concurrent publishing: the model is sequential. The window between the append under the write lock (line 133) and the separate read snapshot in `save_metas` (line 186) cannot be expressed.
- Backends: `RAMDirectory` and `MmapDirectory` are both represented by the abstract `Directory`; neither backend's code is modelled. Their internals, durability and crash behaviour are not modelled. Durability is recorded only as the log of requested syncs.
- `Storage.Directory.Sync`: fails with NotFound when the file does not exist, for every backend, the in-memory one included. This is a choice of the model, because neither backend is part of it. Other backend I/O failures (of sync, atomic write or open for write) are not modelled: those operations succeed.
- `Index::create`, `Index::create_from_tempdir` and the directory creation inside `Index::open`: creating a memory-mapped directory at a path is backend work. `Open` takes the directory to attach to as a parameter.
- JSON codec: the exact bytes `rustc_serialize::json` writes are not modelled, and neither is `String::from_utf8_lossy`. The model uses a small JSON-shaped encoding of its own that stores each id as its 32-digit string. Its decoder is proved to be the exact inverse of its encoder.
- `Indexes.Index.LoadMetas`: on a `meta.json` that does not decode, the source panics (`unwrap()` on the decoder result). The model returns `InvalidData` and leaves the catalog unchanged.
- `Indexes.Index.NewSegment`: takes the new identity as a parameter instead of calling `Uuid::new_v4()`. So the model does not claim that successive new segments have distinct ids; in the source that holds only with high probability.
- Writing bytes through a `WritePtr` is the external writer's business and is not modelled. `OpenWrite` only creates or truncates the file.
- `writer()` and `searcher()` belong to external components and are not modelled. The `Debug` formatting is not modelled either, and neither is the unused `SegmentInfo`.
- `Index::schema`, `Index::segment_ids`, `Index::segment` and `Segment::id` are modelled as functions without contracts of their own (`CurrentSchema`, `SegmentIds`, `SegmentFor`, `Id`). What they return is stated in the contracts of `CreateInRam`, `Segments` and `NewSegment`.
- Four more members model source functions without contracts of their own; their rows above state what they do:
  - `IndexMetas.WithSchema` models `IndexMeta::with_schema` (src/core/index.rs:43-48); see the `Indexes.Index.FromDirectory` row.
  - `Indexes.Segment.RelativePath` models `Segment::relative_path` (src/core/index.rs:234-238); it delegates to `SegmentAddressing.RelativePath` and is used by `Segment.OpenRead`, `Segment.OpenWrite` and `Index.Sync`.
  - `IndexMetas.Encode` stands for `json::encode` (line 187); see the `IndexMetas.DecodeEncode`, `IndexMetas.EncodeInjective` and `Indexes.Index.SaveMetas` rows.
  - `IndexMetas.Decode` stands for `json::decode` (line 179); see the `IndexMetas.DecodeEncode`, `IndexMetas.EncodeDecode` and `Indexes.Index.LoadMetas` rows.
