/** The earlier script movedetection.py: the same movement figure as
    meisencam.py, but the current image is renamed onto the old one, the
    threshold is 35 and the upload goes to a share URL flagged by a query
    parameter. */
module MoveDetection {
  import opened Common
  import opened Thumbnail
  import opened ActivityLog

  /** Movement figures strictly above this value count as motion. */
  const Schwellwert: real := 35.0

  const BaseUrl: string := "https://pro.woelkli.com/s/Gi2bRAHrgMoebcA"

  const ModeQuery: string := "?mode=1"

  /** Whether a URL carries the motion query at its end. */
  predicate HasModeQuery(url: string) {
    |url| >= |ModeQuery| && url[|url| - |ModeQuery|..] == ModeQuery
  }

  /** The upload target: the share URL, flagged with the motion query
      exactly when the mode is non-zero. */
  function UploadUrl(mode: int): (url: string)
    ensures |url| >= |BaseUrl| && url[..|BaseUrl|] == BaseUrl
    ensures HasModeQuery(url) <==> mode != 0
  {
    if mode != 0 then
      assert (BaseUrl + ModeQuery)[..|BaseUrl|] == BaseUrl;
      BaseUrl + ModeQuery
    else
      assert BaseUrl[|BaseUrl| - |ModeQuery|] != ModeQuery[0];
      BaseUrl
  }

  /** What the script would post: the target URL and the image file. */
  datatype UploadRequest = UploadRequest(url: string, image: seq<int>)

  class MeisenCam {
    var current: Option<seq<int>>
    var reference: Option<seq<int>>
    var log: string

    ghost predicate Valid()
      reads this
    {
      (current.Some? ==> IsThumb(current.value)) && (reference.Some? ==> IsThumb(reference.value))
    }

    constructor (current: Option<seq<int>>, reference: Option<seq<int>>, log: string)
      requires current.Some? ==> IsThumb(current.value)
      requires reference.Some? ==> IsThumb(reference.value)
      ensures Valid()
      ensures this.current == current && this.reference == reference && this.log == log
    {
      this.current := current;
      this.reference := reference;
      this.log := log;
    }

    /** Compare, then move the current image onto the old one: afterwards the
        old slot holds the capture and the current slot is empty. */
    method CalculateMovement() returns (r: Result<real>)
      requires Valid()
      modifies this`current, this`reference
      ensures Valid()
      ensures old(current).None? ==>
        r == Err(FileNotFound) && current == old(current) && reference == old(reference)
      ensures old(current).Some? ==>
        current == None && reference == old(current) && r == Ok(Movement(old(current).value, old(reference)))
    {
      if current.None? {
        return Err(FileNotFound);
      }
      var kennzahl := ComputeMovement(current.value, reference);
      reference, current := current, None;
      return Ok(kennzahl);
    }

    /** Open the current image and address it by mode; the post itself is not modelled. */
    method UploadImage(mode: int) returns (r: Result<UploadRequest>)
      ensures current.None? ==> r == Err(FileNotFound)
      ensures current.Some? ==> r == Ok(UploadRequest(UploadUrl(mode), current.value))
    {
      if current.None? {
        return Err(FileNotFound);
      }
      return Ok(UploadRequest(UploadUrl(mode), current.value));
    }

    /** One cycle as written, given the camera's frame: the rename in
        CalculateMovement empties the current slot, so the upload that follows
        can never open the image, the cycle ends with that error and no log
        line is written. */
    method Run(frame: seq<int>) returns (r: Result<()>)
      requires Valid() && IsThumb(frame)
      modifies this
      ensures Valid()
      ensures r == Err(FileNotFound)
      ensures current == None && reference == Some(frame) && log == old(log)
    {
      current := Some(frame);
      var movement := CalculateMovement();
      var kennzahl := movement.value;
      var mode := Mode(kennzahl, Schwellwert);
      var upload := UploadImage(mode);
      if upload.Err? {
        return Err(upload.error);
      }
      // The post and the log line that would follow are never reached.
      assert false;
    }

    /** calculate_movement as intended: the current image is copied onto the
        old one, so it is still there for the upload. */
    method CalculateMovementCopying() returns (r: Result<real>)
      requires Valid()
      modifies this`reference
      ensures Valid()
      ensures old(current).None? ==> r == Err(FileNotFound) && reference == old(reference)
      ensures old(current).Some? ==>
        reference == current && r == Ok(Movement(current.value, old(reference)))
    {
      if current.None? {
        return Err(FileNotFound);
      }
      var kennzahl := ComputeMovement(current.value, reference);
      reference := current;
      return Ok(kennzahl);
    }

    /** Append the line for one cycle to the log. */
    method LogActivity(zeitstempel: string, kennzahl: string, mode: int, responseText: string)
      requires mode == 0 || mode == 1
      modifies this`log
      ensures log == old(log) + LogEntry(LogFields(zeitstempel, kennzahl, ModeText(mode), responseText))
    {
      log := log + LogEntry(LogFields(zeitstempel, kennzahl, ModeText(mode), responseText));
    }

    /** One cycle as intended, with the old image refreshed by copying: the
        capture is posted to the URL its mode selects under threshold 35, and
        exactly one log line is appended. The timestamp, the text the figure
        is printed as and the server's response text are inputs. */
    method RunCorrected(frame: seq<int>, zeitstempel: string, render: real -> string, responseText: string)
      returns (r: Result<UploadRequest>)
      requires Valid() && IsThumb(frame)
      modifies this
      ensures Valid()
      ensures current == Some(frame) && reference == Some(frame)
      ensures var kennzahl := Movement(frame, old(reference));
        r == Ok(UploadRequest(UploadUrl(Mode(kennzahl, Schwellwert)), frame))
        && log == old(log) + LogEntry(LogFields(zeitstempel, render(kennzahl), ModeText(Mode(kennzahl, Schwellwert)), responseText))
    {
      current := Some(frame);
      var movement := CalculateMovementCopying();
      var kennzahl := movement.value;
      var mode := Mode(kennzahl, Schwellwert);
      r := UploadImage(mode);
      LogActivity(zeitstempel, render(kennzahl), mode, responseText);
    }
  }
}
