/** The byte codecs of stored parameters: the zstd envelope and the JSON text. */
module Codec {
  import opened Wrappers
  import opened MergePatch

  type Bytes = seq<bv8>

  /** "FTZ$" */
  const MAGIC: Bytes := [0x46, 0x54, 0x5A, 0x24]
  /** "{}" */
  const EMPTY_PATCH: Bytes := [0x7B, 0x7D]
  const COMPRESS_FROM := 4 * 1024

  /** The zstd library: `ready` is false when its initialisation failed. */
  datatype Zstd = Zstd(ready: bool, encode: Bytes -> Bytes, decode: Bytes -> Option<Bytes>)
  {
    ghost predicate Lossless() {
      forall s :: decode(encode(s)) == Some(s)
    }
  }

  /** The JSON library. */
  datatype JsonText = JsonText(render: Json -> Bytes, parse: Bytes -> Option<Json>)
  {
    ghost predicate Faithful() {
      && (forall j :: parse(render(j)) == Some(j))
      && (forall j: Json :: j.Object? ==> render(j) != [] && render(j)[0] == 0x7B)
      && parse(EMPTY_PATCH) == Some(Object(map[]))
    }
  }

  predicate HasMagic(data: Bytes) {
    |MAGIC| <= |data| && data[..|MAGIC|] == MAGIC
  }

  function Compress(z: Zstd, s: Bytes): Bytes {
    if |s| < COMPRESS_FROM then s
    else if !z.ready then MAGIC + s
    else MAGIC + z.encode(s)
  }

  function Decompress(z: Zstd, data: Bytes): Bytes {
    if !HasMagic(data) || !z.ready then data
    else match z.decode(data[|MAGIC|..])
      case None => data
      case Some(s) => s
  }

  /** `decompress` undoes `compress` on exactly these texts: with zstd up, all but a
      short text that itself looks like an envelope zstd can open; with zstd down,
      the short ones only. */
  lemma CompressRoundTrip(z: Zstd, s: Bytes)
    requires z.Lossless()
    ensures Decompress(z, Compress(z, s)) == s <==>
            if z.ready then |s| >= COMPRESS_FROM || !HasMagic(s) || z.decode(s[|MAGIC|..]) in {None, Some(s)}
            else |s| < COMPRESS_FROM
  {
  }

  /** `createJSONPatch`; `None` is its error for texts that are not JSON objects. */
  function CreateJSONPatch(json: JsonText, original: Bytes, modified: Bytes): Option<Bytes> {
    if original == modified then Some(EMPTY_PATCH)
    else match (json.parse(original), json.parse(modified))
      case (Some(Object(a)), Some(Object(b))) => Some(json.render(Object(Diff(Object(a), Object(b)))))
      case _ => None
  }

  /** What a reader of the store makes of a base text and a patch text. */
  function ReadBack(json: JsonText, original: Bytes, patch: Bytes): Option<Json> {
    match (json.parse(original), json.parse(patch))
    case (Some(a), Some(p)) => Some(Apply(Some(a), p))
    case _ => None
  }

  ghost predicate IsObjectText(json: JsonText, text: Bytes) {
    json.parse(text).Some? && json.parse(text).value.Object?
  }

  /** `patch` leads from `original` to `modified`: the texts are the same and the patch is
      empty, or both are objects and the patched original is `modified` up to null
      members, and exactly it if and only if its nulls were there before. */
  ghost predicate Restores(json: JsonText, original: Bytes, patch: Bytes, modified: Bytes) {
    || (original == modified && patch == EMPTY_PATCH)
    || (&& IsObjectText(json, original) && IsObjectText(json, modified)
        && RestoresObject(json, original, patch, modified))
  }

  ghost predicate RestoresObject(json: JsonText, original: Bytes, patch: Bytes, modified: Bytes)
    requires IsObjectText(json, original) && IsObjectText(json, modified)
  {
    var a, b, r := json.parse(original).value, json.parse(modified).value, ReadBack(json, original, patch);
    r.Some? && Prune(r.value) == Prune(b) && (r.value == b <==> NullsKept(a, b))
  }

  lemma PatchRestores(json: JsonText, original: Bytes, modified: Bytes)
    requires json.Faithful()
    requires CreateJSONPatch(json, original, modified).Some?
    ensures Restores(json, original, CreateJSONPatch(json, original, modified).value, modified)
    ensures !HasMagic(CreateJSONPatch(json, original, modified).value)
    ensures IsObjectText(json, modified) ==>
              IsObjectText(json, original) &&
              RestoresObject(json, original, CreateJSONPatch(json, original, modified).value, modified)
  {
    if IsObjectText(json, modified) && IsObjectText(json, original) {
      var a, b := json.parse(original).value, json.parse(modified).value;
      RoundTrip(a, b);
      ExactRoundTrip(a, b);
      DiffEmpty(a, b);
    }
  }
}
