/** Artifact and bucket records, and the S3 key an artifact is stored under. */
module Model {
  datatype ArtifactState =
    | UNKNOWN_ARTIFACT_STATE
    | ERROR
    | APPENDING
    | APPEND_COMPLETE
    | WAITING_FOR_UPLOAD
    | UPLOADING
    | UPLOADED
    | DEADLINE_EXCEEDED
    | CLOSED_WITHOUT_DATA

  datatype Artifact = Artifact(
    id: nat,
    bucketId: string,
    name: string,
    s3url: string,
    size: int,
    state: ArtifactState,
    deadlineMins: nat,
    relativePath: string)
  {
    function DefaultS3URL(): string {
      S3Key(bucketId, name)
    }
  }

  datatype BucketState = UNKNOWN | OPEN | CLOSED | TIMEDOUT

  datatype Bucket = Bucket(id: string, owner: string, state: BucketState, dateCreated: int, dateClosed: int)

  function S3Key(bucketId: string, name: string): string {
    "/" + bucketId + "/" + name
  }

  /** Two slash-free bucket ids never share a key, whatever the artifact names contain. */
  lemma S3KeyInjective(b1: string, n1: string, b2: string, n2: string)
    requires '/' !in b1 && '/' !in b2
    requires S3Key(b1, n1) == S3Key(b2, n2)
    ensures b1 == b2 && n1 == n2
  {
    var tail := S3Key(b1, n1)[1..];
    assert tail == b1 + "/" + n1 && tail == b2 + "/" + n2;
    FirstSlashAfter(b1, n1);
    FirstSlashAfter(b2, n2);
    assert b1 == tail[..|b1|] && b2 == tail[..|b2|];
    assert n1 == tail[|b1| + 1..] && n2 == tail[|b2| + 1..];
  }

  lemma {:induction false} FirstSlashAfter(b: string, n: string)
    requires '/' !in b
    ensures '/' in b + "/" + n && FirstSlash(b + "/" + n) == |b|
  {
    assert (b + "/" + n)[|b|] == '/';
    if b != "" {
      assert (b + "/" + n)[1..] == b[1..] + "/" + n;
      FirstSlashAfter(b[1..], n);
    }
  }

  /** The condition is exact: a bucket id with a slash shares every one of its keys with another bucket. */
  lemma S3KeyClash(b: string, n: string) returns (b': string, n': string)
    requires '/' in b
    ensures b' != b && '/' !in b' && S3Key(b', n') == S3Key(b, n)
  {
    var i := FirstSlash(b);
    b', n' := b[..i], b[i + 1..] + "/" + n;
    assert b == b[..i] + "/" + b[i + 1..];
    assert S3Key(b', n') == S3Key(b, n);
  }

  function FirstSlash(b: string): (i: nat)
    requires '/' in b
    ensures i < |b| && b[i] == '/' && '/' !in b[..i]
  {
    if b[0] == '/' then 0
    else
      var i := 1 + FirstSlash(b[1..]);
      assert b[..i] == [b[0]] + b[1..][..i - 1];
      i
  }
}
