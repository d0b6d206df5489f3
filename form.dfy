/**
 The request an upload posts: an `application/x-www-form-urlencoded` body
 with the fields `key` (the API key) and `image` (the file's contents in
 base64), both percent-encoded. The codecs are foreign and enter the model as
 given functions.
 */
module Form {

  newtype byte = x: int | 0 <= x < 256

  type Bytes = seq<byte>

  /**
   The foreign codecs: UTF-8 encoding of text, percent-encoding of bytes,
   and base64 encoding of bytes.
   */
  datatype Codec = Codec(utf8: string -> Bytes, percent: Bytes -> Bytes, base64: Bytes -> Bytes)

  const UploadEndpoint: string := "http://api.imgur.com/2/upload"
  const FormContentType: string := "application/x-www-form-urlencoded"

  /** The field separator `&`. */
  const Ampersand: byte := 0x26
  /** The ASCII bytes of "key=". */
  const KeyPrefix: Bytes := [0x6B, 0x65, 0x79, 0x3D]
  /** The ASCII bytes of "&image=". */
  const ImagePrefix: Bytes := [0x26, 0x69, 0x6D, 0x61, 0x67, 0x65, 0x3D]

  /** The posted body: "key=" ++ pct(apiKey) ++ "&image=" ++ pct(base64(contents)). */
  function FormBody(codec: Codec, apiKey: string, contents: Bytes): Bytes {
    KeyPrefix + codec.percent(codec.utf8(apiKey)) + ImagePrefix + codec.percent(codec.base64(contents))
  }

  /** Percent-encoding never leaves a literal `&` in its output. */
  ghost predicate PercentSafe(codec: Codec) {
    forall b :: Ampersand !in codec.percent(b)
  }

  /** The `&`-separated fields of a form body. */
  function Fields(body: Bytes): (fs: seq<Bytes>)
    ensures |fs| >= 1
    decreases |body|
  {
    if body == [] then [[]]
    else
      var rest := Fields(body[1..]);
      if body[0] == Ampersand then [[]] + rest
      else [[body[0]] + rest[0]] + rest[1..]
  }

  lemma {:induction false} FieldsSingle(a: Bytes)
    requires Ampersand !in a
    ensures Fields(a) == [a]
    decreases |a|
  {
    if a != [] {
      FieldsSingle(a[1..]);
      assert [a[0]] + a[1..] == a;
    }
  }

  lemma {:induction false} FieldsSplit(a: Bytes, c: Bytes)
    requires Ampersand !in a
    ensures Fields(a + [Ampersand] + c) == [a] + Fields(c)
    decreases |a|
  {
    var b := a + [Ampersand] + c;
    if a == [] {
      assert b[1..] == c;
    } else {
      assert b[1..] == a[1..] + [Ampersand] + c;
      FieldsSplit(a[1..], c);
      assert [a[0]] + a[1..] == a;
    }
  }

  /**
   With a percent codec that encodes `&`, the body splits into exactly two
   fields, `key=<encoded key>` and `image=<encoded base64 data>`.
   */
  lemma FormBodyFields(codec: Codec, apiKey: string, contents: Bytes)
    requires PercentSafe(codec)
    ensures Fields(FormBody(codec, apiKey, contents))
         == [KeyPrefix + codec.percent(codec.utf8(apiKey)),
             ImagePrefix[1..] + codec.percent(codec.base64(contents))]
  {
    var key := KeyPrefix + codec.percent(codec.utf8(apiKey));
    var image := ImagePrefix[1..] + codec.percent(codec.base64(contents));
    assert Ampersand !in codec.percent(codec.utf8(apiKey));
    assert Ampersand !in codec.percent(codec.base64(contents));
    assert Ampersand !in key;
    assert Ampersand !in image;
    assert FormBody(codec, apiKey, contents) == key + [Ampersand] + image;
    FieldsSplit(key, image);
    FieldsSingle(image);
  }
}
