/**
 * Segment identity and segment addressing: the name of the file that holds one
 * component of one segment.
 */
module SegmentAddressing {
  import opened Hex

  /** The 16 octets of a UUID. */
  type Uuid = s: seq<byte> | |s| == 16 witness [0, 0, 0, 0, 0, 0, 0, 0, 0, 0, 0, 0, 0, 0, 0, 0]

  /** A path relative to the root of a directory. */
  type Path = string

  /** A segment identity; equality is by value. */
  datatype SegmentId = SegmentId(uuid: Uuid) {

    /** The 32-digit lowercase hexadecimal "simple" form of the UUID. */
    function UuidString(): (s: string)
      ensures |s| == 32
      ensures forall i :: 0 <= i < |s| ==> IsLowerHexDigit(s[i])
    {
      HexString(uuid)
    }
  }

  /** Distinct identities have distinct id strings. */
  lemma UuidStringInjective(a: SegmentId, b: SegmentId)
    requires a.UuidString() == b.UuidString()
    ensures a == b
  {
    HexStringInjective(a.uuid, b.uuid);
  }

  /** The kinds of file a segment may own. */
  datatype SegmentComponent = INFO | POSTINGS | TERMS | STORE

  /** The fixed file-name suffix of each component kind. */
  function PathSuffix(component: SegmentComponent): (suffix: string)
    ensures |suffix| >= 4 && suffix[0] == '.'
  {
    match component
    case INFO => ".info"
    case POSTINGS => ".idx"
    case TERMS => ".term"
    case STORE => ".store"
  }

  /** The four suffixes are pairwise distinct. */
  lemma PathSuffixInjective(c1: SegmentComponent, c2: SegmentComponent)
    requires PathSuffix(c1) == PathSuffix(c2)
    ensures c1 == c2
  {
  }

  /** The file of one component of a segment: the id string followed by the suffix. */
  function RelativePath(id: SegmentId, component: SegmentComponent): (p: Path)
    ensures |p| == 32 + |PathSuffix(component)|
    ensures p[..32] == id.UuidString() && p[32..] == PathSuffix(component)
  {
    id.UuidString() + PathSuffix(component)
  }

  /** Two (id, component) pairs name the same file only if they are the same pair. */
  lemma {:induction false} RelativePathInjective(id1: SegmentId, c1: SegmentComponent,
                                                  id2: SegmentId, c2: SegmentComponent)
    requires RelativePath(id1, c1) == RelativePath(id2, c2)
    ensures id1 == id2 && c1 == c2
  {
    var p := RelativePath(id1, c1);
    assert id1.UuidString() == p[..32] == id2.UuidString();
    UuidStringInjective(id1, id2);
    PathSuffixInjective(c1, c2);
  }
}
