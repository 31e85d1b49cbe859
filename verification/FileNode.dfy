/** File nodes, their handle service and handles: filesystem/file under the FUSE server. */
module FileNodes {
  import opened Base

  class FileHandle {
    var closed: bool

    constructor ()
      ensures !closed
    {
      closed := false;
    }

    method Close()
      modifies this
      ensures closed
    {
      closed := true;
    }
  }

  class FileHandleService {
    var closed: bool

    constructor ()
      ensures !closed
    {
      closed := false;
    }

    /** New.  A closed service answers (nil, nil), and without a logger there is an error. */
    method New(logger: bool) returns (handle: FileHandle?, failed: bool)
      ensures closed ==> handle == null && !failed
      ensures !closed ==> (handle == null <==> failed) && (failed <==> !logger)
      ensures handle != null ==> fresh(handle) && !handle.closed
    {
      if closed {
        return null, false;
      }
      if !logger {
        return null, true;
      }
      handle := new FileHandle();
      failed := false;
    }

    method Close()
      modifies this
      ensures closed
    {
      closed := true;
    }
  }

  class FileNode {
    const identifier: nat
    const size: nat
    var handleService: FileHandleService?
    var handles: seq<FileHandle?>
    var closed: bool

    ghost var everOpened: seq<FileHandle?>  // every handle this node ever listed
    ghost var Repr: set<object>

    /** The service is nil exactly when the node is closed, and so are then all handles it opened. */
    ghost predicate Valid()
      reads this, Repr
      ensures Valid() ==> this in Repr
    {
      && this in Repr
      && (closed <==> handleService == null)
      && (handleService != null ==> handleService in Repr && !handleService.closed)
      && (forall i | 0 <= i < |everOpened| :: everOpened[i] != null && everOpened[i] in Repr)
      && handles == (if closed then [] else everOpened)
      && (closed ==> forall i | 0 <= i < |everOpened| :: everOpened[i].closed)
    }

    constructor (identifier: nat, size: nat)
      ensures Valid() && fresh(Repr) && !closed && everOpened == []
      ensures this.identifier == identifier && this.size == size
    {
      this.identifier, this.size := identifier, size;
      var service := new FileHandleService();
      handleService, handles, closed, everOpened := service, [], false, [];
      new;
      Repr := {this, handleService};
    }

    method Open(logger: bool) returns (handle: FileHandle?, failed: bool)
      requires Valid()
      modifies this`handles, this`everOpened, this`Repr
      ensures Valid() && fresh(Repr - old(Repr)) && closed == old(closed)
      ensures handle == null <==> failed
      ensures failed <==> closed || !logger
      ensures failed ==> handles == old(handles) && everOpened == old(everOpened)
      ensures !failed ==> handles == old(handles) + [handle] && fresh(handle) && !handle.closed
    {
      if closed {
        return null, true;
      }
      handle, failed := handleService.New(logger);
      if failed {
        return;
      }
      handles := handles + [handle];
      everOpened := everOpened + [handle];
      Repr := Repr + {handle};
    }

    /** Close: the service and then, in any order, the handles; both fields are nilled. */
    method Close()
      requires Valid()
      modifies Repr
      ensures Valid() && Repr == old(Repr) && closed && everOpened == old(everOpened)
      ensures old(handleService) != null ==> old(handleService).closed
    {
      if closed {
        return;
      }
      closed := true;
      handleService.Close();
      handleService := null;
      for i := 0 to |handles|
        invariant closed && handleService == null && Repr == old(Repr) && this in Repr && old(handleService).closed
        invariant handles == old(handles) && everOpened == handles
        invariant forall j | 0 <= j < |everOpened| :: everOpened[j] != null && everOpened[j] in Repr
        invariant forall j | 0 <= j < i :: handles[j].closed
      {
        handles[i].Close();
      }
      handles := [];
    }
  }
}
