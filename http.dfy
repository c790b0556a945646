/**
 * An HTTP response as the downloader sees it once `urlopen` has returned:
 * a status code, the header fields in the order received, and the body as
 * the bytes `read` delivers.
 */
module Http {
  import opened Wrappers
  import opened Bytes
  import opened PyStr

  datatype Field = Field(name: string, value: string)

  datatype Response = Response(status: int, headers: seq<Field>, body: seq<byte>)

  /** The values of the fields whose lower-cased name is `key`, in order. */
  function FieldValues(headers: seq<Field>, key: string): (vs: seq<string>)
    ensures |vs| <= |headers|
    decreases |headers|
  {
    if headers == [] then []
    else
      var rest := FieldValues(headers[1..], key);
      if Lower(headers[0].name) == key then [headers[0].value] + rest else rest
  }

  /**
   * `response.getheader(name)`: field names compare without regard to case;
   * several fields of one name are joined with ", "; no field gives `None`.
   */
  function GetHeader(r: Response, name: string): Option<string> {
    var vs := FieldValues(r.headers, Lower(name));
    if vs == [] then None else Some(Join(vs, ", "))
  }

  /** A header is absent exactly when no field carries its name. */
  lemma {:induction false} NoValuesIffNoField(headers: seq<Field>, key: string)
    ensures FieldValues(headers, key) == [] <==> forall i :: 0 <= i < |headers| ==> Lower(headers[i].name) != key
    decreases |headers|
  {
    if headers != [] {
      NoValuesIffNoField(headers[1..], key);
      assert forall i :: 1 <= i < |headers| ==> headers[i] == headers[1..][i - 1];
    }
  }

  /** A header carried by exactly one field reads as that field's value. */
  lemma {:induction false} SingleFieldValue(headers: seq<Field>, key: string, j: nat)
    requires j < |headers| && Lower(headers[j].name) == key
    requires forall i :: 0 <= i < |headers| && i != j ==> Lower(headers[i].name) != key
    ensures FieldValues(headers, key) == [headers[j].value]
    decreases |headers|
  {
    var tail := headers[1..];
    assert forall i :: 1 <= i < |headers| ==> headers[i] == tail[i - 1];
    if j == 0 {
      NoValuesIffNoField(tail, key);
    } else {
      SingleFieldValue(tail, key, j - 1);
    }
  }

  lemma GetHeaderAbsent(r: Response, name: string)
    ensures GetHeader(r, name).None? <==>
      forall i :: 0 <= i < |r.headers| ==> Lower(r.headers[i].name) != Lower(name)
  {
    NoValuesIffNoField(r.headers, Lower(name));
  }

  lemma GetHeaderSingle(r: Response, name: string, j: nat)
    requires j < |r.headers| && Lower(r.headers[j].name) == Lower(name)
    requires forall i :: 0 <= i < |r.headers| && i != j ==> Lower(r.headers[i].name) != Lower(name)
    ensures GetHeader(r, name) == Some(r.headers[j].value)
  {
    SingleFieldValue(r.headers, Lower(name), j);
  }
}
