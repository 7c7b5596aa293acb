/**
 * The index metadata catalog and its serialized form, the content of `meta.json`.
 *
 * The catalog is the ordered list of published segment identities plus a snapshot of
 * the schema. It is written as a JSON-shaped document
 *
 *     {"segments":["<32 hex digits>",...],"schema":<schema>}
 *
 * in which the schema, opaque to this layer, is carried as the bytes of its own
 * serialized form. Decode accepts exactly the outputs of Encode.
 */
module IndexMetas {
  import opened Wrappers
  import opened Hex
  import opened SegmentAddressing

  /** The field/schema type system is outside this layer: a schema is its serialized form. */
  datatype Schema = Schema(repr: seq<byte>)

  /** The schema of Schema::new(), with no fields. */
  function EmptySchema(): Schema {
    Schema([])
  }

  /** The catalog: committed segment identities, in publication order, and the schema. */
  datatype IndexMeta = IndexMeta(segments: seq<SegmentId>, schema: Schema)

  /** The catalog of a newly created index. */
  function WithSchema(schema: Schema): IndexMeta {
    IndexMeta([], schema)
  }

  // Punctuation of the document, as ASCII bytes.
  const QUOTE: byte := 34     // "
  const COMMA: byte := 44     // ,
  const RBRACKET: byte := 93  // ]
  const RBRACE: byte := 125   // }
  /** `{"segments":[` */
  const OPEN: seq<byte> := [123, 34, 115, 101, 103, 109, 101, 110, 116, 115, 34, 58, 91]
  /** `],"schema":` */
  const MID: seq<byte> := [93, 44, 34, 115, 99, 104, 101, 109, 97, 34, 58]

  /** The bytes of a string whose characters are ASCII. */
  function Ascii(s: string): (bs: seq<byte>)
    ensures |bs| == |s|
  {
    seq(|s|, i requires 0 <= i < |s| => (s[i] as int % 256) as byte)
  }

  /** The characters of a byte string read as Latin-1 (ASCII below 128). */
  function ToChars(bs: seq<byte>): (s: string)
    ensures |s| == |bs|
  {
    seq(|bs|, i requires 0 <= i < |bs| => bs[i] as int as char)
  }

  lemma AsciiOfToChars(bs: seq<byte>)
    ensures Ascii(ToChars(bs)) == bs
  {
  }

  lemma ToCharsOfAscii(s: string)
    requires forall i :: 0 <= i < |s| ==> s[i] as int < 256
    ensures ToChars(Ascii(s)) == s
  {
  }

  /** One identity as a JSON string: a quote, the 32 hex digits, a quote. */
  function QuotedId(id: SegmentId): (q: seq<byte>)
    ensures |q| == 34
  {
    [QUOTE] + Ascii(id.UuidString()) + [QUOTE]
  }

  /** The identity a 34-byte quoted id string stands for, if it is one. */
  function ParseQuotedId(q: seq<byte>): Option<SegmentId> {
    if |q| == 34 && q[0] == QUOTE && q[33] == QUOTE then
      match ParseHex(ToChars(q[1..33]))
      case Some(bs) => if |bs| == 16 then Some(SegmentId(bs)) else None
      case None => None
    else None
  }

  lemma ParseQuotedIdOfQuotedId(id: SegmentId)
    ensures ParseQuotedId(QuotedId(id)) == Some(id)
  {
    var q := QuotedId(id);
    assert q[1..33] == Ascii(id.UuidString());
    ToCharsOfAscii(id.UuidString());
    ParseHexString(id.uuid);
  }

  lemma QuotedIdOfParse(q: seq<byte>, id: SegmentId)
    requires ParseQuotedId(q) == Some(id)
    ensures QuotedId(id) == q
  {
    HexStringOfParse(ToChars(q[1..33]), id.uuid);
    AsciiOfToChars(q[1..33]);
    assert q == [q[0]] + q[1..33] + [q[33]];
  }

  /** The elements of the segment list, separated by commas. */
  function EncodeIds(ids: seq<SegmentId>): seq<byte> {
    if ids == [] then []
    else if |ids| == 1 then QuotedId(ids[0])
    else QuotedId(ids[0]) + [COMMA] + EncodeIds(ids[1..])
  }

  /** The whole document for a catalog. */
  function Encode(m: IndexMeta): seq<byte> {
    OPEN + EncodeIds(m.segments) + MID + m.schema.repr + [RBRACE]
  }

  /**
   * Parses one or more comma-separated quoted ids at the start of s; returns
   * them and what follows the last one.
   */
  function ParseIds(s: seq<byte>): Option<(seq<SegmentId>, seq<byte>)>
    decreases |s|
  {
    if |s| < 34 then None
    else
      match ParseQuotedId(s[..34])
      case None => None
      case Some(id) =>
        if |s| > 34 && s[34] == COMMA then
          match ParseIds(s[35..])
          case None => None
          case Some((ids, rest)) => Some(([id] + ids, rest))
        else Some(([id], s[34..]))
  }

  /** Parses the possibly empty segment list up to its closing bracket. */
  function ParseList(s: seq<byte>): Option<(seq<SegmentId>, seq<byte>)> {
    if |s| > 0 && s[0] == RBRACKET then Some(([], s)) else ParseIds(s)
  }

  /** The catalog a document stands for; None for anything Encode does not produce. */
  function Decode(bs: seq<byte>): Option<IndexMeta> {
    if |bs| < |OPEN| + 1 || bs[..|OPEN|] != OPEN || bs[|bs| - 1] != RBRACE then None
    else
      match ParseList(bs[|OPEN|..|bs| - 1])
      case None => None
      case Some((ids, rest)) =>
        if |rest| >= |MID| && rest[..|MID|] == MID then Some(IndexMeta(ids, Schema(rest[|MID|..])))
        else None
  }

  /** How ParseIds treats input that begins with a well-formed quoted id. */
  lemma ParseIdsStep(s: seq<byte>, id: SegmentId)
    requires |s| >= 34 && s[..34] == QuotedId(id)
    ensures |s| > 34 && s[34] == COMMA ==>
      ParseIds(s) == match ParseIds(s[35..])
                     case None => None
                     case Some((ids, rest)) => Some(([id] + ids, rest))
    ensures !(|s| > 34 && s[34] == COMMA) ==> ParseIds(s) == Some(([id], s[34..]))
  {
    ParseQuotedIdOfQuotedId(id);
  }

  lemma {:induction false} ParseIdsOfEncodeIds(ids: seq<SegmentId>, tail: seq<byte>)
    requires ids != []
    requires tail == [] || tail[0] != COMMA
    ensures ParseIds(EncodeIds(ids) + tail) == Some((ids, tail))
  {
    var s := EncodeIds(ids) + tail;
    if |ids| == 1 {
      assert s == QuotedId(ids[0]) + tail;
      assert s[..34] == QuotedId(ids[0]);
      assert s[34..] == tail;
      assert |s| > 34 ==> s[34] == tail[0];
      ParseIdsStep(s, ids[0]);
      assert ids == [ids[0]];
    } else {
      var more := EncodeIds(ids[1..]) + tail;
      assert s == QuotedId(ids[0]) + ([COMMA] + more);
      assert s[..34] == QuotedId(ids[0]);
      assert s[34] == COMMA;
      assert s[35..] == more;
      ParseIdsOfEncodeIds(ids[1..], tail);
      ParseIdsStep(s, ids[0]);
      assert [ids[0]] + ids[1..] == ids;
    }
  }

  lemma {:induction false} EncodeIdsOfParseIds(s: seq<byte>, ids: seq<SegmentId>, rest: seq<byte>)
    requires ParseIds(s) == Some((ids, rest))
    ensures ids != [] && (rest == [] || rest[0] != COMMA)
    ensures s == EncodeIds(ids) + rest
    decreases |s|
  {
    var id := ParseQuotedId(s[..34]).value;
    QuotedIdOfParse(s[..34], id);
    if |s| > 34 && s[34] == COMMA {
      var (ids', rest') := ParseIds(s[35..]).value;
      EncodeIdsOfParseIds(s[35..], ids', rest');
      assert ids == [id] + ids' && rest == rest';
      assert ids[1..] == ids';
      assert s == s[..34] + [s[34]] + s[35..];
    } else {
      assert ids == [id];
      assert s == s[..34] + s[34..];
    }
  }

  /** Decoding an encoded catalog gives it back, segment order included. */
  lemma DecodeEncode(m: IndexMeta)
    ensures Decode(Encode(m)) == Some(m)
  {
    var bs := Encode(m);
    var body := EncodeIds(m.segments) + (MID + m.schema.repr);
    assert bs == OPEN + body + [RBRACE];
    assert bs[..|OPEN|] == OPEN;
    assert bs[|OPEN|..|bs| - 1] == body;
    if m.segments == [] {
      assert body == MID + m.schema.repr;
      assert ParseList(body) == Some(([], body));
    } else {
      ParseQuotedIdOfQuotedId(m.segments[0]);
      assert body[0] == QUOTE;
      ParseIdsOfEncodeIds(m.segments, MID + m.schema.repr);
    }
    assert (MID + m.schema.repr)[..|MID|] == MID;
    assert (MID + m.schema.repr)[|MID|..] == m.schema.repr;
  }

  /** Only an encoded catalog decodes: garbage never decodes to some catalog. */
  lemma EncodeDecode(bs: seq<byte>, m: IndexMeta)
    requires Decode(bs) == Some(m)
    ensures Encode(m) == bs
  {
    var body := bs[|OPEN|..|bs| - 1];
    var parsed := ParseList(body);
    assert parsed.Some?;
    var ids, rest := parsed.value.0, parsed.value.1;
    assert m.segments == ids && m.schema.repr == rest[|MID|..];
    assert body == EncodeIds(ids) + rest by {
      if |body| > 0 && body[0] == RBRACKET {
        assert ids == [] && rest == body;
      } else {
        EncodeIdsOfParseIds(body, ids, rest);
      }
    }
    assert rest == MID + m.schema.repr by {
      assert rest == rest[..|MID|] + rest[|MID|..];
    }
    assert bs == bs[..|OPEN|] + body + [bs[|bs| - 1]];
  }

  /** Encode is injective: distinct catalogs give distinct documents. */
  lemma EncodeInjective(m1: IndexMeta, m2: IndexMeta)
    requires Encode(m1) == Encode(m2)
    ensures m1 == m2
  {
    DecodeEncode(m1);
    DecodeEncode(m2);
  }
}
