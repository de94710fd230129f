/**
 * The upload page's controller: the staged list, the screen state, the
 * progress figure and the cancel source of the request in flight, changed
 * by the user's actions and by the request's callbacks.
 */
module UploadController {
  import opened Wrappers
  import opened Staging
  import opened Progress

  /** The screen: `Idle` is the page's initial, undefined state. */
  datatype Phase = Idle | Uploading | Success | Error | Canceled

  /** How the POST request settles: a response with its status, the cancel error, or any other failure. */
  datatype Outcome = Response(status: int) | CancelError | OtherFailure

  /**
   * A cancel source of the HTTP client: the controller keeps it while the
   * request is in flight, and signalling it makes the request reject with
   * the cancel error.
   */
  class CancelSource {
    var signaled: bool

    constructor ()
      ensures !signaled
    {
      signaled := false;
    }

    method Cancel()
      modifies this
      ensures signaled
    {
      signaled := true;
    }
  }

  class Controller {
    var state: Phase
    var progress: Option<nat>
    var cancelToken: CancelSource?
    var files: seq<FileItem>
    /** The two-second timer scheduled after a 200 response has not fired yet. */
    var timerPending: bool

    /**
     * Ids stay unique; the screen reads "uploading" exactly while a request
     * is in flight (a cancel source is held) or the success timer is
     * pending, never both; progress is set whenever it is shown.
     */
    ghost predicate Valid()
      reads this
    {
      DistinctIds(files) &&
      (state == Uploading <==> cancelToken != null || timerPending) &&
      !(cancelToken != null && timerPending) &&
      (state == Uploading ==> progress.Some?)
    }

    constructor ()
      ensures Valid()
      ensures state == Idle && progress == None && cancelToken == null && files == [] && !timerPending
    {
      state := Idle;
      progress := None;
      cancelToken := null;
      files := [];
      timerPending := false;
    }

    /** The send button is shown only on the idle screen with something staged. */
    predicate UploadOffered()
      reads this
      ensures UploadOffered() ==> |files| > 0 && !LeavePrompted()
    {
      state == Idle && |files| > 0
    }

    /** The cancel button is shown while uploading with a progress that is set, non-zero and below 95. */
    predicate CancelOffered()
      reads this
      ensures CancelOffered() ==> LeavePrompted() && !UploadOffered() && !ResetOffered()
    {
      state == Uploading && progress.Some? && 0 < progress.value < 95
    }

    /** Leaving the page asks for confirmation only while uploading. */
    predicate LeavePrompted()
      reads this
    {
      state == Uploading
    }

    /** The terminal screens, each of which offers a reset. */
    predicate ResetOffered()
      reads this
      ensures ResetOffered() ==> !LeavePrompted() && !UploadOffered()
    {
      state == Success || state == Error || state == Canceled
    }

    /** The leave prompt is armed exactly while a request is in flight or the success timer is pending. */
    lemma LeavePromptedWhileBusy()
      requires Valid()
      ensures LeavePrompted() <==> cancelToken != null || timerPending
    {
    }

    /** `handleDrop`: append one valid item per dropped blob, under the fresh ids given. */
    method Drop(blobs: seq<Blob>, ids: seq<string>)
      requires Valid()
      requires |ids| == |blobs| && FreshIds(ids, files)
      modifies this
      ensures Valid()
      ensures files == Dropped(old(files), blobs, ids)
      ensures state == old(state) && progress == old(progress)
      ensures cancelToken == old(cancelToken) && timerPending == old(timerPending)
    {
      DroppedKeepsDistinct(files, blobs, ids);
      files := Dropped(files, blobs, ids);
    }

    /**
     * `handleRemove`: copy the list, find the first item with `id`, and
     * splice it out of the copy; nothing changes when no item has `id`.
     */
    method Remove(id: string)
      requires Valid()
      modifies this
      ensures Valid()
      ensures files == Removed(old(files), id)
      ensures state == old(state) && progress == old(progress)
      ensures cancelToken == old(cancelToken) && timerPending == old(timerPending)
    {
      var current := files;
      var copy := new FileItem[|current|](i requires 0 <= i < |current| => current[i]);
      assert copy[..] == current;
      var k := FindIndex(copy, id);
      if k < 0 {
        forall j | 0 <= j < |current| ensures current[j].id != id {
          assert current[j] == copy[j];
        }
        return;
      }
      RemovedFirstMatch(current, id, k);
      SpliceOut(copy, k);
      assert copy[..copy.Length - 1] == current[..k] + current[k + 1..];
      RemovedKeepsDistinct(current, id);
      files := copy[..copy.Length - 1];
    }

    /**
     * `handleUpload` up to the request: the screen turns to uploading, the
     * progress to 0, and a fresh cancel source is kept for the request. The
     * handler does not look at the list (its `!files` guard cannot fire on
     * an array), so an empty list is sent as well.
     */
    method StartUpload()
      requires Valid()
      requires state != Uploading
      modifies this
      ensures Valid()
      ensures state == Uploading && progress == Some(0)
      ensures cancelToken != null && fresh(cancelToken) && !cancelToken.signaled
      ensures files == old(files) && !timerPending
    {
      state := Uploading;
      progress := Some(0);
      cancelToken := new CancelSource();
    }

    /** The upload-progress callback: the rounded percentage of the bytes sent. */
    method OnUploadProgress(loaded: nat, total: Option<nat>)
      requires Valid()
      requires cancelToken != null
      requires total.None? || total.value > 0
      modifies this
      ensures Valid()
      ensures progress == Some(Percent(loaded, total))
      ensures state == old(state) && files == old(files)
      ensures cancelToken == old(cancelToken) && timerPending == old(timerPending)
    {
      progress := Some(Percent(loaded, total));
    }

    /**
     * The request settles: a 200 response schedules the success timer and
     * leaves the screen on uploading; any other status, or a failure other
     * than the cancel error, shows the error screen; the cancel error shows
     * the canceled screen. The cancel source is dropped in every case. A
     * signalled source makes the request settle with the cancel error.
     */
    method Settle(outcome: Outcome)
      requires Valid()
      requires cancelToken != null
      requires cancelToken.signaled ==> outcome == CancelError
      modifies this
      ensures Valid()
      ensures old(state) == Uploading && cancelToken == null
      ensures outcome == Response(200) ==> state == Uploading && timerPending
      ensures outcome.Response? && outcome.status != 200 ==> state == Error && !timerPending
      ensures outcome == CancelError ==> state == Canceled && !timerPending
      ensures outcome == OtherFailure ==> state == Error && !timerPending
      ensures files == old(files) && progress == old(progress)
    {
      match outcome {
        case Response(status) =>
          if status == 200 {
            timerPending := true;
          } else {
            state := Error;
          }
        case CancelError =>
          state := Canceled;
        case OtherFailure =>
          state := Error;
      }
      cancelToken := null;
    }

    /** The success timer fires: only now does the success screen show. */
    method SuccessTimerFires()
      requires Valid()
      requires timerPending
      modifies this
      ensures Valid()
      ensures old(state) == Uploading && state == Success && !timerPending
      ensures files == old(files) && progress == old(progress) && cancelToken == old(cancelToken)
    {
      state := Success;
      timerPending := false;
    }

    /**
     * `handleCancelUpload`: signal the cancel source when there is one, and
     * change nothing else; with no source it does nothing at all.
     */
    method CancelUpload()
      requires Valid()
      modifies cancelToken
      ensures cancelToken != null ==> cancelToken.signaled
      ensures state == old(state) && progress == old(progress) && files == old(files)
      ensures cancelToken == old(cancelToken) && timerPending == old(timerPending)
      ensures Valid()
    {
      if cancelToken != null {
        cancelToken.Cancel();
      }
    }

    /** The button of a terminal screen: empty the list and return to the idle screen. */
    method Reset()
      requires Valid()
      requires ResetOffered()
      modifies this
      ensures Valid()
      ensures state == Idle && files == []
      ensures progress == old(progress) && cancelToken == old(cancelToken) && timerPending == old(timerPending)
    {
      files := [];
      state := Idle;
    }
  }

  /**
   * Files dropped and sent, a quarter of the bytes reported, a 200
   * response, the timer, then the reset. The screen stays on uploading
   * after the response until the timer fires.
   */
  method SuccessfulUpload(blobs: seq<Blob>, ids: seq<string>) returns (offered: bool, screens: seq<Phase>, shown: Option<nat>, staged: seq<FileItem>)
    requires |blobs| == |ids| && FreshIds(ids, [])
    ensures offered <==> |blobs| > 0
    ensures screens == [Idle, Uploading, Uploading, Success, Idle]
    ensures shown == Some(25)
    ensures staged == []
  {
    var c := new Controller();
    c.Drop(blobs, ids);
    offered := c.UploadOffered();
    screens := [c.state];
    c.StartUpload();
    screens := screens + [c.state];
    c.OnUploadProgress(50, Some(200));
    PercentQuarter();
    shown := c.progress;
    c.Settle(Response(200));
    screens := screens + [c.state];
    c.SuccessTimerFires();
    screens := screens + [c.state];
    c.Reset();
    screens := screens + [c.state];
    staged := c.files;
  }

  /**
   * Nothing staged: the send button is not on offer, yet the handler
   * itself, if called, still starts an upload of the empty list.
   */
  method EmptyListUpload() returns (offered: bool, screen: Phase, sent: seq<FileItem>)
    ensures !offered
    ensures screen == Uploading && sent == []
  {
    var c := new Controller();
    offered := c.UploadOffered();
    c.StartUpload();
    screen := c.state;
    sent := c.files;
  }

  /**
   * Cancel pressed before the server answers: the button is on offer at
   * 10%, the request then settles with the cancel error, and the screen
   * turns to canceled, never to error or success.
   */
  method CanceledUpload() returns (offered: bool, prompted: bool, screen: Phase)
    ensures offered && prompted
    ensures screen == Canceled
  {
    var c := new Controller();
    c.StartUpload();
    c.OnUploadProgress(1, Some(10));
    PercentUnique(1, Some(10), 10);
    offered := c.CancelOffered();
    prompted := c.LeavePrompted();
    c.CancelUpload();
    c.Settle(CancelError);
    screen := c.state;
  }

  /**
   * Cancel pressed after a 200 response while the success timer is
   * pending: there is no cancel source any more, so nothing happens and
   * the timer still brings the success screen.
   */
  method CancelAfterResponse() returns (screens: seq<Phase>)
    ensures screens == [Uploading, Uploading, Success]
  {
    var c := new Controller();
    c.StartUpload();
    c.Settle(Response(200));
    screens := [c.state];
    c.CancelUpload();
    screens := screens + [c.state];
    c.SuccessTimerFires();
    screens := screens + [c.state];
  }

  /**
   * A non-200 response or a failure other than the cancel error ends on
   * the error screen, whose reset empties the list and returns to idle.
   */
  method FailedUpload(outcome: Outcome) returns (screen: Phase, after: Phase, prompted: bool)
    requires outcome == OtherFailure || (outcome.Response? && outcome.status != 200)
    ensures screen == Error && after == Idle && !prompted
  {
    var c := new Controller();
    c.StartUpload();
    c.Settle(outcome);
    screen := c.state;
    prompted := c.LeavePrompted();
    c.Reset();
    after := c.state;
  }

  /**
   * With no total reported, the progress figure is a hundred times the
   * bytes sent: after 10 bytes it reads 1000 and the cancel button is gone.
   */
  method UploadWithoutTotal() returns (shown: Option<nat>, offered: bool)
    ensures shown == Some(1000) && !offered
  {
    var c := new Controller();
    c.StartUpload();
    c.OnUploadProgress(10, None);
    PercentWithoutTotal();
    shown := c.progress;
    offered := c.CancelOffered();
  }
}
