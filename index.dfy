/**
 * The index: a directory plus the metadata catalog, and the segments the catalog names.
 *
 * An Index object owns one catalog (`metas`) and one directory. Index handles in the
 * source are shared references to both; here the Index is an object on the heap, and
 * every Segment refers to the Index it was made by.
 */
module Indexes {
  import opened Wrappers
  import opened Hex
  import opened SegmentAddressing
  import opened Storage
  import opened IndexMetas

  /** The file that holds the catalog, at the root of the directory. */
  const META_FILEPATH: Path := "meta.json"

  /** The catalog file never collides with a segment component file. */
  lemma MetaFileIsNoSegmentFile(id: SegmentId, component: SegmentComponent)
    ensures RelativePath(id, component) != META_FILEPATH
  {
  }

  /** The events Index.Sync logs for the file syncs of the given components. */
  function FileSyncs(segment: Segment, components: seq<SegmentComponent>): (events: seq<SyncEvent>)
    ensures |events| == |components|
    ensures forall k :: 0 <= k < |components| ==>
      events[k] == FileSync(SegmentAddressing.RelativePath(segment.segmentId, components[k]))
  {
    seq(|components|, k requires 0 <= k < |components| =>
      FileSync(SegmentAddressing.RelativePath(segment.segmentId, components[k])))
  }

  /** A segment: an identity, bound to the index it belongs to. Making one checks nothing. */
  datatype Segment = Segment(index: Index, segmentId: SegmentId) {

    function Id(): SegmentId {
      segmentId
    }

    /** The file of one of this segment's components. */
    function RelativePath(component: SegmentComponent): Path {
      SegmentAddressing.RelativePath(segmentId, component)
    }

    /** Reads a component file through the index's directory; NotFound if it was never written. */
    function OpenRead(component: SegmentComponent): (r: Result<seq<byte>, IoError>)
      reads index.directory
      ensures r.Ok? <==> SegmentAddressing.RelativePath(segmentId, component) in index.directory.files
      ensures r.Ok? ==> r.value == index.directory.files[SegmentAddressing.RelativePath(segmentId, component)]
      ensures r.Err? ==> r.error == NotFound(SegmentAddressing.RelativePath(segmentId, component))
    {
      index.directory.OpenRead(RelativePath(component))
    }

    /** Creates or truncates a component file through the index's directory. */
    method OpenWrite(component: SegmentComponent) returns (w: WritePtr)
      modifies index.directory
      ensures w.path == SegmentAddressing.RelativePath(segmentId, component)
      ensures index.directory.files == old(index.directory.files)[w.path := []]
      ensures index.directory.syncLog == old(index.directory.syncLog)
    {
      w := index.directory.OpenWrite(RelativePath(component));
    }
  }

  class Index {
    var metas: IndexMeta
    const directory: Directory

    /** An index over the given directory with an empty catalog and the given schema. */
    constructor FromDirectory(directory: Directory, schema: Schema)
      ensures this.directory == directory
      ensures metas.segments == [] && metas.schema == schema
    {
      this.directory := directory;
      metas := WithSchema(schema);
    }

    /** An index over a fresh, empty in-memory directory. */
    static method CreateInRam(schema: Schema) returns (index: Index)
      ensures fresh(index) && fresh(index.directory)
      ensures index.directory.files == map[] && index.directory.syncLog == []
      ensures index.SegmentIds() == [] && index.CurrentSchema() == schema
    {
      var directory := new Directory.Empty();
      index := new Index.FromDirectory(directory, schema);
    }

    /**
     * Attaches to an existing directory and loads its catalog; fails if the directory
     * holds no catalog or one that does not decode.
     */
    static method Open(directory: Directory) returns (r: Result<Index, IoError>)
      ensures META_FILEPATH !in directory.files ==> r == Err(NotFound(META_FILEPATH))
      ensures META_FILEPATH in directory.files && Decode(directory.files[META_FILEPATH]).None? ==>
        r == Err(InvalidData)
      ensures META_FILEPATH in directory.files && Decode(directory.files[META_FILEPATH]).Some? ==>
        r.Ok? && fresh(r.value) && r.value.directory == directory &&
        r.value.metas == Decode(directory.files[META_FILEPATH]).value
    {
      var index := new Index.FromDirectory(directory, EmptySchema());
      var loaded := index.LoadMetas();
      if loaded.Fail? {
        return Err(loaded.error);
      }
      return Ok(index);
    }

    /** The schema snapshot of the catalog. */
    function CurrentSchema(): Schema
      reads this
    {
      metas.schema
    }

    /** The identities in the catalog, in catalog order. */
    function SegmentIds(): seq<SegmentId>
      reads this
    {
      metas.segments
    }

    /** The segment of this index with the given identity. */
    function SegmentFor(segmentId: SegmentId): Segment {
      Segment(this, segmentId)
    }

    /** One segment of this index per catalog entry, in catalog order. */
    function Segments(): (r: seq<Segment>)
      reads this
      ensures |r| == |SegmentIds()|
      ensures forall i :: 0 <= i < |r| ==> r[i].index == this && r[i].segmentId == SegmentIds()[i]
    {
      var ids := metas.segments;
      seq(|ids|, i requires 0 <= i < |ids| => SegmentFor(ids[i]))
    }

    /** A segment with a newly generated identity; the catalog is not touched. */
    method NewSegment(freshId: SegmentId) returns (segment: Segment)
      ensures segment.index == this && segment.segmentId == freshId
    {
      segment := SegmentFor(freshId);
    }

    /** Appends the segment's identity to the catalog, then persists the catalog. */
    method PublishSegment(segment: Segment) returns (r: Outcome<IoError>)
      modifies this, directory
      ensures r == Pass
      ensures metas.segments == old(metas.segments) + [segment.segmentId]
      ensures metas.schema == old(metas.schema)
      ensures segment.segmentId !in old(metas.segments) ==> multiset(metas.segments)[segment.segmentId] == 1
      ensures directory.files == old(directory.files)[META_FILEPATH := Encode(metas)]
      ensures directory.syncLog == old(directory.syncLog)
    {
      metas := metas.(segments := metas.segments + [segment.segmentId]);
      r := SaveMetas();
    }

    /**
     * Makes the segment's postings and terms files durable, in that order, then the
     * directory; stops at the first file that cannot be synced.
     */
    method Sync(segment: Segment) returns (r: Outcome<IoError>)
      modifies directory
      ensures directory.files == old(directory.files)
      ensures
        var postings, terms := segment.RelativePath(POSTINGS), segment.RelativePath(TERMS);
        if postings !in directory.files then
          r == Fail(NotFound(postings)) && directory.syncLog == old(directory.syncLog)
        else if terms !in directory.files then
          r == Fail(NotFound(terms)) && directory.syncLog == old(directory.syncLog) + [FileSync(postings)]
        else
          r == Pass &&
          directory.syncLog == old(directory.syncLog) + [FileSync(postings), FileSync(terms), DirectorySync]
    {
      var components := [POSTINGS, TERMS];
      var i := 0;
      while i < |components|
        invariant 0 <= i <= |components|
        invariant directory.files == old(directory.files)
        invariant forall k :: 0 <= k < i ==> segment.RelativePath(components[k]) in directory.files
        invariant directory.syncLog == old(directory.syncLog) + FileSyncs(segment, components[..i])
      {
        var path := segment.RelativePath(components[i]);
        r := directory.Sync(path);
        if r.Fail? {
          if i == 0 {
            assert components[..i] == [];
          } else {
            assert components[..i] == [POSTINGS];
            assert segment.RelativePath(components[0]) in directory.files;
          }
          return;
        }
        i := i + 1;
      }
      assert components[..i] == [POSTINGS, TERMS];
      assert segment.RelativePath(components[0]) in directory.files;
      assert segment.RelativePath(components[1]) in directory.files;
      directory.SyncDirectory();
      r := Pass;
    }

    /** Replaces the whole catalog by the one stored in the directory. */
    method LoadMetas() returns (r: Outcome<IoError>)
      modifies this
      ensures META_FILEPATH !in directory.files ==>
        r == Fail(NotFound(META_FILEPATH)) && metas == old(metas)
      ensures META_FILEPATH in directory.files && Decode(directory.files[META_FILEPATH]).None? ==>
        r == Fail(InvalidData) && metas == old(metas)
      ensures META_FILEPATH in directory.files && Decode(directory.files[META_FILEPATH]).Some? ==>
        r == Pass && metas == Decode(directory.files[META_FILEPATH]).value
    {
      var metaFile := directory.OpenRead(META_FILEPATH);
      if metaFile.Err? {
        return Fail(metaFile.error);
      }
      var loaded := Decode(metaFile.value);
      if loaded.None? {
        return Fail(InvalidData);
      }
      metas := loaded.value;
      r := Pass;
    }

    /** Writes the encoded catalog to the catalog file, and changes no other file. */
    method SaveMetas() returns (r: Outcome<IoError>)
      modifies directory
      ensures r == Pass
      ensures directory.files == old(directory.files)[META_FILEPATH := Encode(metas)]
      ensures directory.syncLog == old(directory.syncLog)
    {
      var encoded := Encode(metas);
      directory.AtomicWrite(META_FILEPATH, encoded);
      r := Pass;
    }
  }

  /** Saving and then loading the catalog gives back the same segment list and schema. */
  method SaveThenLoad(index: Index) returns (r: Outcome<IoError>)
    modifies index, index.directory
    ensures r == Pass && index.metas == old(index.metas)
  {
    var saved := index.SaveMetas();
    DecodeEncode(index.metas);
    r := index.LoadMetas();
  }

  /** An index reopened after a publish sees the same catalog, the new segment at its end. */
  method PublishThenReopen(index: Index, segment: Segment) returns (r: Result<Index, IoError>)
    modifies index, index.directory
    ensures r.Ok? && r.value.directory == index.directory
    ensures r.value.SegmentIds() == old(index.SegmentIds()) + [segment.segmentId]
    ensures r.value.CurrentSchema() == old(index.CurrentSchema())
    ensures segment.segmentId !in old(index.SegmentIds()) ==>
      multiset(r.value.SegmentIds())[segment.segmentId] == 1
  {
    var published := index.PublishSegment(segment);
    DecodeEncode(index.metas);
    r := Index.Open(index.directory);
  }
}
