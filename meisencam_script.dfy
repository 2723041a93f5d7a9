/** The stand-alone script meisencam.py: capture, movement figure over a 4x3
    thumbnail, mode flag, upload and log line. The two image files of the RAM
    disk are slots holding the grey thumbnail their image shrinks to; the old
    image is refreshed by copying, so the current image stays in place. */
module MeisenCamScript {
  import opened Common
  import opened Thumbnail
  import opened ActivityLog

  /** Movement figures strictly above this value count as motion. */
  const Schwellwert: real := 1.0

  class MeisenCam {
    var current: Option<seq<int>>
    var reference: Option<seq<int>>
    var log: string

    ghost predicate Valid()
      reads this
    {
      (current.Some? ==> IsThumb(current.value)) && (reference.Some? ==> IsThumb(reference.value))
    }

    /** The RAM disk as the script finds it. */
    constructor (current: Option<seq<int>>, reference: Option<seq<int>>, log: string)
      requires current.Some? ==> IsThumb(current.value)
      requires reference.Some? ==> IsThumb(reference.value)
      ensures Valid()
      ensures this.current == current && this.reference == reference && this.log == log
    {
      this.current := current;
      this.reference := reference;
      this.log := log;
    }

    /** Compare the current image with the old one and copy the current image
        over the old one; without an old image the figure is 0. */
    method CalculateMovement() returns (r: Result<real>)
      requires Valid()
      modifies this`reference
      ensures Valid()
      ensures old(current).None? ==> r == Err(FileNotFound) && reference == old(reference)
      ensures old(current).Some? ==>
        reference == current && r == Ok(Movement(current.value, old(reference)))
    {
      if current.None? {
        return Err(FileNotFound);
      }
      var kennzahl := ComputeMovement(current.value, reference);
      reference := current;
      return Ok(kennzahl);
    }

    /** Append one line to the log; reading the text of a missing response fails. */
    method LogActivity(zeitstempel: string, kennzahl: string, mode: int, response: Option<string>)
      returns (r: Result<()>)
      requires mode == 0 || mode == 1
      modifies this`log
      ensures response.None? ==> r == Err(NoResponse) && log == old(log)
      ensures response.Some? ==>
        r == Ok(()) && log == old(log) + LogEntry(LogFields(zeitstempel, kennzahl, ModeText(mode), response.value))
    {
      if response.None? {
        return Err(NoResponse);
      }
      log := log + LogEntry(LogFields(zeitstempel, kennzahl, ModeText(mode), response.value));
      return Ok(());
    }

    /** One cycle. The camera's frame and timestamp, the text the figure is
        printed as and the server's response text are inputs; the upload opens
        the current image and yields no response when it is missing. */
    method Run(frame: seq<int>, zeitstempel: string, render: real -> string, responseText: string)
      returns (r: Result<()>)
      requires Valid() && IsThumb(frame)
      modifies this
      ensures Valid()
      ensures r == Ok(())
      ensures current == Some(frame) && reference == Some(frame)
      ensures var kennzahl := Movement(frame, old(reference));
        log == old(log) + LogEntry(LogFields(zeitstempel, render(kennzahl), ModeText(Mode(kennzahl, Schwellwert)), responseText))
    {
      current := Some(frame);
      var movement := CalculateMovement();
      var kennzahl := movement.value;
      var mode := Mode(kennzahl, Schwellwert);
      var response := if current.Some? then Some(responseText) else None;
      r := LogActivity(zeitstempel, render(kennzahl), mode, response);
    }
  }
}
