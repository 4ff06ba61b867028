/**
 * Splitting a `gs://bucket/object` reference into bucket and object names
 * (app/main.py: the prefix assertion and `gcs_uri[5:].split("/", 1)`).
 */
module GcsUri {
  import opened Wrappers

  const SCHEME: string := "gs://"

  /** Why a reference cannot be split: the failed assertion, or a one-element split that cannot be unpacked. */
  datatype UriError = NotGcsUri | MissingObjectName

  datatype GcsObject = GcsObject(bucket: string, blob: string)

  /** `uri[5:]`; Python's slice of a shorter string is empty. */
  function AfterScheme(uri: string): string {
    if |uri| <= |SCHEME| then [] else uri[|SCHEME|..]
  }

  /** The position of the first `c` in `s`, if there is one. */
  function IndexOf(s: string, c: char): (r: Option<nat>)
    ensures r.None? <==> c !in s
    ensures r.Some? ==> r.value < |s| && s[r.value] == c && c !in s[..r.value]
  {
    if |s| == 0 then None
    else if s[0] == c then Some(0)
    else
      match IndexOf(s[1..], c)
      case None => None
      case Some(i) =>
        assert s[..i + 1] == [s[0]] + s[1..][..i];
        Some(i + 1)
  }

  /**
   * `bucket_name, blob_name = uri[5:].split("/", 1)`: the bucket is everything
   * before the first `/`, the object name everything after it; without a `/`
   * the unpacking fails.
   */
  function SplitBucketBlob(uri: string): (r: Result<GcsObject, UriError>)
    ensures r.Success? <==> '/' in AfterScheme(uri)
    ensures r.Success? ==> '/' !in r.value.bucket
    ensures r.Success? ==> r.value.bucket + "/" + r.value.blob == AfterScheme(uri)
    ensures r.Failure? ==> r.error == MissingObjectName
  {
    var rest := AfterScheme(uri);
    match IndexOf(rest, '/')
    case None => Failure(MissingObjectName)
    case Some(i) =>
      assert rest == rest[..i] + "/" + rest[i + 1..];
      Success(GcsObject(rest[..i], rest[i + 1..]))
  }

  /** `stream_video_from_gcs`'s check and split: the `gs://` assertion comes first. */
  function ParseGcsUri(uri: string): (r: Result<GcsObject, UriError>)
    ensures (r.Failure? && r.error == NotGcsUri) <==> !(SCHEME <= uri)
    ensures r.Success? <==> SCHEME <= uri && '/' in uri[|SCHEME|..]
    ensures r.Success? ==> SCHEME + r.value.bucket + "/" + r.value.blob == uri
  {
    if !(SCHEME <= uri) then Failure(NotGcsUri)
    else
      var r := SplitBucketBlob(uri);
      SchemeAndRest(uri);
      if r.Success? then
        Reassemble(SCHEME, r.value.bucket, r.value.blob, AfterScheme(uri), uri);
        r
      else r
  }

  /** A reference with the prefix is the prefix followed by what `uri[5:]` gives. */
  lemma SchemeAndRest(uri: string)
    requires SCHEME <= uri
    ensures AfterScheme(uri) == uri[|SCHEME|..]
    ensures SCHEME + AfterScheme(uri) == uri
  {
  }

  /** Putting the prefix back in front of the rebuilt suffix rebuilds the reference. */
  lemma Reassemble(scheme: string, bucket: string, blob: string, rest: string, uri: string)
    requires bucket + "/" + blob == rest && scheme + rest == uri
    ensures scheme + bucket + "/" + blob == uri
  {
    assert scheme + bucket + "/" + blob == scheme + (bucket + "/" + blob);
  }

  /** Building a reference from a bucket without `/` and any object name, and parsing it, gives both back. */
  lemma ParseRoundTrip(bucket: string, blob: string)
    requires '/' !in bucket
    ensures ParseGcsUri(SCHEME + bucket + "/" + blob) == Success(GcsObject(bucket, blob))
  {
    var uri := SCHEME + bucket + "/" + blob;
    assert SCHEME <= uri;
    var rest := uri[|SCHEME|..];
    assert rest == bucket + "/" + blob;
    assert rest[|bucket|] == '/' && rest[..|bucket|] == bucket;
    var i := IndexOf(rest, '/').value;
    assert i == |bucket|;
    assert rest[i + 1..] == blob;
  }
}
