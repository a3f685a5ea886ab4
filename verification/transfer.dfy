/**
 Object transfer in fds/fds_cmd.py: the length-bounded copy of `get_object`
 and the part-by-part upload loop of `put_object`.

 The object's download stream is the list of chunks it yields. Standard
 input is `input`, the list of what successive `readinto` calls deliver; a
 call past the end of the list delivers nothing, as at end of file.
 */
module Transfer {
  import opened Common
  import opened Metadata

  // ---- get_object ----

  /** `sys.maxsize` on a 64-bit Python: the budget that stands for "no limit". */
  const MaxSize: int := 0x7FFF_FFFF_FFFF_FFFF

  /** The byte budget `get_object` starts from: `-1` means `sys.maxsize`. */
  function Budget(length: int): (budget: int)
    ensures budget >= 0 <==> length >= -1
    ensures length != -1 ==> budget == length
    ensures length == -1 ==> budget == MaxSize
  {
    if length == -1 then MaxSize else length
  }

  function Min(a: int, b: int): int
  {
    if a <= b then a else b
  }

  /**
   Python `chunk[0:l]` for `l <= len(chunk)`: a negative `l` counts from the
   end, so it drops the last `-l` bytes.
   */
  function Head(chunk: seq<byte>, l: int): (r: seq<byte>)
    requires l <= |chunk|
    ensures 0 <= l ==> r == chunk[..l]
    ensures l < 0 ==> |r| == if |chunk| + l >= 0 then |chunk| + l else 0
    ensures chunk[..|r|] == r
  {
    if l >= 0 then chunk[..l]
    else if |chunk| + l >= 0 then chunk[..|chunk| + l]
    else []
  }

  /** The stream up to chunk `k + 1` is the stream up to chunk `k` followed by chunk `k`. */
  lemma FlattenStep(stream: seq<seq<byte>>, k: nat)
    requires k < |stream|
    ensures Flatten(stream[..k + 1]) == Flatten(stream[..k]) + stream[k]
  {
    assert stream[..k + 1][..k] == stream[..k];
  }

  /** The stream up to chunk `k` is a prefix of the whole stream. */
  lemma FlattenPrefix(stream: seq<seq<byte>>, k: nat)
    requires k <= |stream|
    ensures Flatten(stream) == Flatten(stream[..k]) + Flatten(stream[k..])
  {
    assert stream[..k] + stream[k..] == stream;
    FlattenAppend(stream[..k], stream[k..]);
  }

  /**
   What the copy has written once chunk `p - 1` has brought a non-negative
   budget to zero: exactly the first `budget` bytes of the stream.
   */
  lemma BudgetSpent(stream: seq<seq<byte>>, p: nat, budget: int, out: seq<byte>)
    requires 1 <= p <= |stream| && budget >= 0
    requires |Flatten(stream[..p - 1])| <= budget
    requires var left := budget - |Flatten(stream[..p - 1])|;
      && left <= |stream[p - 1]|
      && out == Flatten(stream[..p - 1]) + stream[p - 1][..left]
    ensures |out| == budget <= |Flatten(stream[..p])|
    ensures out == Flatten(stream)[..Min(budget, |Flatten(stream)|)]
  {
    FlattenStep(stream, p - 1);
    FlattenPrefix(stream, p);
    var whole := Flatten(stream);
    assert whole[..budget] == out;
  }

  /**
   The copy loop of `get_object`: writes `chunk[0:l]` with
   `l = min(left, len(chunk))` for each chunk, and stops after the chunk that
   brings the budget to zero or below. Returns the bytes written and the
   number of chunks taken from the stream.
   */
  method BoundedCopy(stream: seq<seq<byte>>, length: int) returns (out: seq<byte>, pulled: nat)
    ensures pulled <= |stream|
    ensures |stream| > 0 ==> pulled >= 1
    ensures Budget(length) >= 0 ==> out == Flatten(stream)[..Min(Budget(length), |Flatten(stream)|)]
    ensures Budget(length) >= 0 ==> pulled == |stream| || |Flatten(stream[..pulled])| >= Budget(length)
    ensures forall k :: 1 <= k < pulled ==> |Flatten(stream[..k])| < Budget(length)
    ensures Budget(length) < 0 && |stream| > 0 ==> pulled == 1 && out == Head(stream[0], length)
  {
    var budget := Budget(length);
    var left := budget;
    out := [];
    pulled := 0;
    while pulled < |stream|
      invariant pulled <= |stream|
      invariant out == Flatten(stream[..pulled])
      invariant left == budget - |out|
      invariant forall k :: 1 <= k <= pulled ==> |Flatten(stream[..k])| < budget
      decreases |stream| - pulled
    {
      var chunk := stream[pulled];
      var l := Min(left, |chunk|);
      FlattenStep(stream, pulled);
      out := out + Head(chunk, l);
      left := left - l;
      pulled := pulled + 1;
      if left <= 0 {
        if budget >= 0 {
          BudgetSpent(stream, pulled, budget, out);
        }
        return;
      }
    }
    assert stream[..pulled] == stream;
  }

  /** Where `get_object` writes: the `-d` file when one is given, standard output otherwise. */
  datatype Sink = ToFile(path: string) | ToStdout

  /** `get_object`: the same bounded copy into the file or onto standard output. */
  method GetObject(dataFile: Option<string>, stream: seq<seq<byte>>, length: int) returns (sink: Sink, written: seq<byte>)
    ensures Truthy(dataFile) ==> sink == ToFile(dataFile.value)
    ensures !Truthy(dataFile) ==> sink == ToStdout
    ensures length >= 0 ==> written == Flatten(stream)[..Min(length, |Flatten(stream)|)]
    ensures length == -1 && |Flatten(stream)| <= MaxSize ==> written == Flatten(stream)
    ensures length < -1 && |stream| > 0 ==> written == Head(stream[0], length)
  {
    sink := if Truthy(dataFile) then ToFile(dataFile.value) else ToStdout;
    var pulled;
    written, pulled := BoundedCopy(stream, length);
  }

  // ---- put_object ----

  /** The size of the buffer `put_object` reads standard input into: 10 MiB. */
  const BufferSize: nat := 10 * 1024 * 1024

  /** One `upload_part` call: its part number and the bytes it sends. */
  datatype Part = Part(number: nat, data: seq<byte>)

  /** The number of reads before the first one that delivers nothing. */
  function ReadsBeforeEof(input: seq<seq<byte>>): (n: nat)
    ensures n <= |input|
    ensures forall i :: 0 <= i < n ==> |input[i]| > 0
    ensures n < |input| ==> |input[n]| == 0
    decreases |input|
  {
    if |input| == 0 || |input[0]| == 0 then 0
    else
      var n := ReadsBeforeEof(input[1..]);
      assert forall i :: 1 <= i < |input| ==> input[i] == input[1..][i - 1];
      1 + n
  }

  /** The bytes the parts carry, in part order. */
  function PartData(parts: seq<Part>): (r: seq<seq<byte>>)
    ensures |r| == |parts|
    ensures forall i :: 0 <= i < |parts| ==> r[i] == parts[i].data
  {
    seq(|parts|, i requires 0 <= i < |parts| => parts[i].data)
  }

  /**
   The multipart loop of `put_object`: each `readinto` overwrites the front
   of one reused buffer, and each non-empty read is uploaded as the next part
   holding only the bytes just read.
   */
  method UploadParts(input: seq<seq<byte>>) returns (parts: seq<Part>)
    requires forall i :: 0 <= i < |input| ==> |input[i]| <= BufferSize
    ensures |parts| == ReadsBeforeEof(input)
    ensures forall i :: 0 <= i < |parts| ==> parts[i] == Part(i, input[i])
    ensures Flatten(PartData(parts)) == Flatten(input[..|parts|])
  {
    var buffer: seq<byte> := seq(BufferSize, _ => 0);
    var partNumber: nat := 0;
    parts := [];
    while partNumber < |input|
      invariant partNumber <= |input|
      invariant |buffer| == BufferSize
      invariant |parts| == partNumber
      invariant forall i :: 0 <= i < partNumber ==> |input[i]| > 0 && parts[i] == Part(i, input[i])
      decreases |input| - partNumber
    {
      var data := input[partNumber];
      buffer := data + buffer[|data|..];
      var length := |data|;
      if length <= 0 {
        break;
      }
      parts := parts + [Part(partNumber, buffer[..length])];
      partNumber := partNumber + 1;
    }
    assert PartData(parts) == input[..|parts|];
  }

  /** What `put_object` sends: one upload of the `-d` file, or the parts read from standard input. */
  datatype Upload =
    | SingleUpload(path: string, metadata: Option<ObjectMetadata>)
    | MultipartUpload(parts: seq<Part>, metadata: Option<ObjectMetadata>)

  /**
   `put_object`: the metadata string is parsed first, so a malformed one
   raises before anything is uploaded; then either the file is uploaded whole
   or standard input is uploaded part by part.
   */
  method PutObject(dataFile: Option<string>, metadata: Option<string>, userPrefix: string, input: seq<seq<byte>>)
    returns (r: Result<Upload, MetadataError>)
    requires forall i :: 0 <= i < |input| ==> |input[i]| <= BufferSize
    ensures ParseMetadata(metadata, userPrefix).Err? <==> r.Err?
    ensures r.Err? ==> r.error == ParseMetadata(metadata, userPrefix).error
    ensures r.Ok? && Truthy(dataFile) ==> r.value == SingleUpload(dataFile.value, ParseMetadata(metadata, userPrefix).value)
    ensures r.Ok? && !Truthy(dataFile) ==>
      && r.value.MultipartUpload?
      && r.value.metadata == ParseMetadata(metadata, userPrefix).value
      && |r.value.parts| == ReadsBeforeEof(input)
      && forall i :: 0 <= i < |r.value.parts| ==> r.value.parts[i] == Part(i, input[i])
  {
    var parsed := ParseMetadata(metadata, userPrefix);
    if parsed.Err? {
      return Err(parsed.error);
    }
    if Truthy(dataFile) {
      return Ok(SingleUpload(dataFile.value, parsed.value));
    }
    var parts := UploadParts(input);
    return Ok(MultipartUpload(parts, parsed.value));
  }
}
