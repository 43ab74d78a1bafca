/** search-service/utils.py: embedding validation and base64 image decoding.
    Embedding elements are IEEE floats seen at the level the validation needs:
    a finite value, NaN, or an infinity of either sign. */
module Utils {
  import opened Wrappers
  import opened PyText

  datatype Float = Finite(value: real) | NaN | Inf

  /** The dimension of a CLIP ViT-B/32 embedding, `validate_embedding`'s default. */
  const EmbeddingDim := 512

  /** `np.isnan(embedding).any()` */
  function HasNaN(embedding: seq<Float>): (b: bool)
    ensures b <==> exists i :: 0 <= i < |embedding| && embedding[i].NaN?
    decreases |embedding|
  {
    if embedding == [] then false
    else
      assert forall i :: 1 <= i < |embedding| ==> embedding[i] == embedding[1..][i - 1];
      embedding[0].NaN? || HasNaN(embedding[1..])
  }

  /** `np.isinf(embedding).any()` */
  function HasInf(embedding: seq<Float>): (b: bool)
    ensures b <==> exists i :: 0 <= i < |embedding| && embedding[i].Inf?
    decreases |embedding|
  {
    if embedding == [] then false
    else
      assert forall i :: 1 <= i < |embedding| ==> embedding[i] == embedding[1..][i - 1];
      embedding[0].Inf? || HasInf(embedding[1..])
  }

  /** `validate_embedding`: the right length, and no NaN or infinite element. */
  function ValidateEmbedding(embedding: seq<Float>, expectedDim: int := EmbeddingDim): (valid: bool)
    ensures valid <==> |embedding| == expectedDim && forall i :: 0 <= i < |embedding| ==> embedding[i].Finite?
  {
    if |embedding| != expectedDim then false
    else if HasNaN(embedding) || HasInf(embedding) then false
    else true
  }

  /** The real values of an embedding every element of which is finite. */
  function Values(embedding: seq<Float>): (v: seq<real>)
    requires forall i :: 0 <= i < |embedding| ==> embedding[i].Finite?
    ensures |v| == |embedding| && forall i :: 0 <= i < |v| ==> embedding[i] == Finite(v[i])
    decreases |embedding|
  {
    if embedding == [] then [] else [embedding[0].value] + Values(embedding[1..])
  }

  /** A vector of reals as the float32 array handed to FAISS. */
  function ToFloats(v: seq<real>): (floats: seq<Float>)
    ensures |floats| == |v| && forall i :: 0 <= i < |v| ==> floats[i] == Finite(v[i])
  {
    seq(|v|, i requires 0 <= i < |v| => Finite(v[i]))
  }

  // ---------------------------------------------------------------------------
  // decode_base64_image

  newtype byte = x: int | 0 <= x < 256

  /** A decoded picture: its PIL mode ("RGB", "RGBA", "L", ...) and its pixel data. */
  datatype Image = Image(mode: string, pixels: seq<byte>)

  /** The library calls `decode_base64_image` makes, each of which may raise (None):
      `base64.b64decode`, `Image.open` on the bytes, and `image.convert('RGB')`. */
  datatype ImageCodec = ImageCodec(
    b64decode: string -> Option<seq<byte>>,
    open: seq<byte> -> Option<Image>,
    convertToRgb: Image -> Option<Image>)

  /** PIL's `convert('RGB')` yields an RGB image whenever it succeeds. */
  ghost predicate ConvertsToRgb(codec: ImageCodec) {
    forall image :: codec.convertToRgb(image).Some? ==> codec.convertToRgb(image).value.mode == "RGB"
  }

  const DataUrlScheme := "data:"

  predicate IsDataUrl(s: string) {
    |s| >= |DataUrlScheme| && s[..|DataUrlScheme|] == DataUrlScheme
  }

  /** The data-URL prefix removal: `image_data.split(',')[1]` for a `data:` string, which
      raises IndexError (None) when there is no comma; any other string is kept as it is. */
  function StripDataUrl(imageData: string): (payload: Option<string>)
    ensures !IsDataUrl(imageData) ==> payload == Some(imageData)
    ensures IsDataUrl(imageData) ==> (payload.None? <==> ',' !in imageData)
    ensures IsDataUrl(imageData) && ',' in imageData ==>
      var rest := imageData[IndexOf(imageData, ',') + 1..];
      var next := IndexOf(rest, ',');
      payload == Some(if next < 0 then rest else rest[..next])
  {
    if IsDataUrl(imageData) then
      var parts := Split(imageData, ',');
      SecondPiece(imageData, ',');
      if |parts| >= 2 then Some(parts[1]) else None
    else Some(imageData)
  }

  /** `decode_base64_image`, step by step as the source reassigns `image_data` and `image`.
      Each step that raises makes the result None; an image PIL opens in RGB mode is returned
      as it is, any other is converted. */
  method DecodeBase64Image(imageData: string, codec: ImageCodec) returns (image: Option<Image>)
    requires ConvertsToRgb(codec)
    ensures StripDataUrl(imageData).None? ==> image.None?
    ensures StripDataUrl(imageData).Some? && codec.b64decode(StripDataUrl(imageData).value).None? ==>
      image.None?
    ensures StripDataUrl(imageData).Some? && codec.b64decode(StripDataUrl(imageData).value).Some? ==>
      var loaded := codec.open(codec.b64decode(StripDataUrl(imageData).value).value);
      && (loaded.None? ==> image.None?)
      && (loaded.Some? && loaded.value.mode == "RGB" ==> image == loaded)
      && (loaded.Some? && loaded.value.mode != "RGB" ==> image == codec.convertToRgb(loaded.value))
    ensures image.Some? ==> image.value.mode == "RGB"
  {
    var data := imageData;
    if IsDataUrl(data) {
      var parts := Split(data, ',');
      if |parts| < 2 {
        return None;
      }
      data := parts[1];
    }
    var bytes := codec.b64decode(data);
    if bytes.None? {
      return None;
    }
    var loaded := codec.open(bytes.value);
    if loaded.None? {
      return None;
    }
    var picture := loaded.value;
    if picture.mode != "RGB" {
      var converted := codec.convertToRgb(picture);
      if converted.None? {
        return None;
      }
      picture := converted.value;
    }
    return Some(picture);
  }
}
