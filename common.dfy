/** Values shared by every part of the camera model: optional files, error
    results, grey pixel values and the binary motion flag. */
module Common {

  /** A file slot on the RAM disk: either absent or holding an image. */
  datatype Option<+T> = None | Some(value: T)

  /** Failures the modelled code lets escape: a file that is not there, and
      reading the text of an upload response that does not exist. */
  datatype Error = FileNotFound | NoResponse

  datatype Result<+T> = Ok(value: T) | Err(error: Error)

  /** A luma value as produced by converting an image to mode "L". */
  predicate IsGreyValue(v: int) {
    0 <= v <= 255
  }

  /** Every value of a decoded grey image is a byte. */
  predicate IsGrey(s: seq<int>) {
    forall i :: 0 <= i < |s| ==> IsGreyValue(s[i])
  }

  function AbsDiff(a: int, b: int): (d: nat)
    ensures d == a - b || d == b - a
  {
    if a >= b then a - b else b - a
  }

  /** Result of Python's str.partition: the text before the first separator,
      whether a separator was found, and the text after it. */
  datatype Parts = Parts(head: string, found: bool, tail: string)

  /** Split at the first occurrence of `sep`; later occurrences stay in the tail. */
  function Partition(s: string, sep: char): (p: Parts)
    ensures p.found <==> sep in s
    ensures sep !in p.head
    ensures p.found ==> s == p.head + [sep] + p.tail
    ensures !p.found ==> p.head == s && p.tail == []
  {
    if |s| == 0 then Parts([], false, [])
    else if s[0] == sep then Parts([], true, s[1..])
    else
      var p := Partition(s[1..], sep);
      assert s == [s[0]] + s[1..];
      Parts([s[0]] + p.head, p.found, p.tail)
  }

  /** Any split of a string at an occurrence of `sep` that has no `sep` before
      it is the split Partition finds. */
  lemma {:induction false} PartitionUnique(head: string, sep: char, tail: string)
    requires sep !in head
    ensures Partition(head + [sep] + tail, sep) == Parts(head, true, tail)
  {
    var s := head + [sep] + tail;
    if |head| > 0 {
      assert s[1..] == head[1..] + [sep] + tail;
      PartitionUnique(head[1..], sep, tail);
    } else {
      assert s[1..] == tail;
    }
  }

  /** The mode rule of every run procedure: motion (1) exactly when the score
      is strictly above the threshold, otherwise no motion (0). */
  function Mode(score: real, threshold: real): (m: int)
    ensures m == 0 || m == 1
    ensures m == 1 <==> score > threshold
  {
    if score > threshold then 1 else 0
  }
}
