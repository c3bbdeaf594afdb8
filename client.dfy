/**
 * The dispatcher state of client/src/language-server.ts: one
 * `LanguageServer` instance per spawned compiler process, with its command-id
 * counter and its table of pending resolvers, and the module-level slot that
 * the static `command` method replaces when the compiler binary changes on
 * disk.  Writing to the socket appends a line to `written`; a promise resolver
 * is an opaque token; the binary's modification time is an input.
 */
module Client {
  import opened Wrappers
  import opened Js
  import opened Codec

  /** Stands for the `resolve` callback of the promise `_command` returns. */
  datatype Resolver = Resolver(token: nat)

  /** What `_command` hands back: an immediate answer, or a promise that
      waits for the response to command `id`. */
  datatype Dispatch = Answered(fragments: seq<Fragment>) | Awaiting(id: int)

  /** A successful `_onData`: the resolver that was called and what it got. */
  datatype Resolution = Resolution(resolver: Resolver, fragments: seq<Fragment>)

  /** `_onData` throws a TypeError when no resolver is pending for the id. */
  datatype DataError = ResolverMissing

  /** `readFileModificationTime`: 0 for an empty path, otherwise what the
      file system reports. */
  function ReadModificationTime(path: string, diskTime: int): (t: int)
    ensures path == "" ==> t == 0
    ensures path != "" ==> t == diskTime
  {
    if path == "" then 0 else diskTime
  }

  class LanguageServer {
    const serverPath: string
    var currentServerModificationTime: int
    /** Whether `serverProcess` holds a process (it is null after `_kill`). */
    var processRunning: bool
    var nextCommandId: int
    var promises: map<int, Resolver>
    /** Every line written to the connection, oldest first. */
    var written: seq<string>
    /** The requests behind `written`. */
    ghost var sent: seq<Request>

    ghost predicate Valid()
      reads this
    {
      && (serverPath == "" ==>
            && !processRunning && nextCommandId == 0 && promises == map[] && sent == []
            && currentServerModificationTime == 0)
      && (serverPath != "" ==> nextCommandId == |sent| + 1)
      && |written| == |sent|
      && (forall i | 0 <= i < |sent| :: sent[i].id == i + 1 && written[i] == EncodeRequest(sent[i]))
      && (forall id | id in promises :: 1 <= id < nextCommandId)
    }

    /** A new instance: disabled for an empty path (no process, modification
        time 0), otherwise a running process, counter 1 and nothing pending.
        The source leaves the counter and the table undefined when disabled;
        here they are 0 and empty, and nothing reads them. */
    constructor (serverPath: string, diskModificationTime: int)
      ensures Valid()
      ensures this.serverPath == serverPath
      ensures currentServerModificationTime == ReadModificationTime(serverPath, diskModificationTime)
      ensures processRunning == (serverPath != "")
      ensures nextCommandId == (if serverPath == "" then 0 else 1)
      ensures promises == map[] && written == [] && sent == []
    {
      this.serverPath := serverPath;
      currentServerModificationTime := ReadModificationTime(serverPath, diskModificationTime);
      processRunning := serverPath != "";
      nextCommandId := if serverPath == "" then 0 else 1;
      promises := map[];
      written := [];
      sent := [];
    }

    /** `_command`: without a process, answer `[]` and change nothing;
        otherwise write the request under the current counter, advance the
        counter by one and register the resolver under that id, which was not
        pending before and is larger than every id sent so far. */
    method Command(call: Call, resolver: Resolver) returns (r: Dispatch)
      requires Valid()
      modifies this
      ensures Valid()
      ensures !old(processRunning) ==> r == Answered([]) && unchanged(this)
      ensures old(processRunning) ==>
        && r == Awaiting(old(nextCommandId))
        && old(nextCommandId) !in old(promises)
        && (forall i | 0 <= i < |old(sent)| :: old(sent)[i].id < old(nextCommandId))
        && nextCommandId == old(nextCommandId) + 1
        && promises == old(promises)[old(nextCommandId) := resolver]
        && written == old(written) + [EncodeRequest(MakeRequest(old(nextCommandId), call))]
        && processRunning && currentServerModificationTime == old(currentServerModificationTime)
    {
      if !processRunning {
        return Answered([]);
      }
      var commandId := nextCommandId;
      var request := MakeRequest(commandId, call);
      nextCommandId := nextCommandId + 1;
      written := written + [EncodeRequest(request)];
      sent := sent + [request];
      promises := promises[commandId := resolver];
      r := Awaiting(commandId);
    }

    /** `_onData`: decode the buffer, look up the resolver of its id, remove
        that one entry and resolve it with the fragments; when nothing is
        pending under the id (or the id is NaN) the table is unchanged and the
        call to the missing resolver throws. */
    method OnData(data: string) returns (r: Result<Resolution, DataError>)
      requires Valid()
      modifies this`promises
      ensures Valid()
      ensures var response := DecodeResponse(data);
        if response.id.Int? && response.id.value in old(promises) then
          && r == Ok(Resolution(old(promises)[response.id.value], response.fragments))
          && promises == old(promises) - {response.id.value}
        else
          r == Err(ResolverMissing) && promises == old(promises)
    {
      var response := DecodeResponse(data);
      if response.id.Int? && response.id.value in promises {
        var commandId := response.id.value;
        var resolve := promises[commandId];
        promises := promises - {commandId};
        r := Ok(Resolution(resolve, response.fragments));
      } else {
        r := Err(ResolverMissing);
      }
    }

    /** `_kill`: drop the process; a second call finds none and does nothing. */
    method Kill()
      requires Valid()
      modifies this`processRunning
      ensures Valid()
      ensures !processRunning
      ensures !old(processRunning) ==> unchanged(this)
    {
      if processRunning {
        processRunning := false;
      }
    }
  }

  /** The module-level `languageServer` variable and the static methods that
      go through it. */
  class ActiveServer {
    var instance: LanguageServer

    ghost predicate Valid()
      reads this, instance
    {
      instance.Valid()
    }

    /** `LanguageServer.init`. */
    constructor Init(serverPath: string, diskModificationTime: int)
      ensures Valid() && fresh(instance)
      ensures instance.serverPath == serverPath
      ensures instance.currentServerModificationTime == ReadModificationTime(serverPath, diskModificationTime)
      ensures instance.processRunning == (serverPath != "")
      ensures instance.promises == map[] && instance.written == []
    {
      instance := new LanguageServer(serverPath, diskModificationTime);
    }

    /** The static `command`: when the binary's modification time differs from
        the one taken at spawn, kill the instance and dispatch on a fresh one
        for the same path (which then sends command 1); otherwise dispatch on
        the same instance.  A disabled instance never reloads.  The killed
        instance keeps its pending resolvers: nothing resolves them again. */
    method Command(call: Call, diskModificationTime: int, resolver: Resolver) returns (r: Dispatch)
      requires Valid()
      modifies this, instance
      ensures Valid()
      ensures old(instance.serverPath) == "" ==> instance == old(instance) && r == Answered([])
      ensures ReadModificationTime(old(instance.serverPath), diskModificationTime) != old(instance.currentServerModificationTime) ==>
        && fresh(instance)
        && !old(instance).processRunning
        && old(instance).promises == old(instance.promises)
        && old(instance).written == old(instance.written)
        && instance.serverPath == old(instance.serverPath)
        && instance.currentServerModificationTime == diskModificationTime
        && instance.processRunning
        && r == Awaiting(1)
        && instance.nextCommandId == 2
        && instance.promises == map[1 := resolver]
        && instance.written == [EncodeRequest(MakeRequest(1, call))]
      ensures ReadModificationTime(old(instance.serverPath), diskModificationTime) == old(instance.currentServerModificationTime) ==>
        && instance == old(instance)
        && (!old(instance.processRunning) ==> r == Answered([]) && unchanged(instance))
        && (old(instance.processRunning) ==>
              && r == Awaiting(old(instance.nextCommandId))
              && instance.nextCommandId == old(instance.nextCommandId) + 1
              && instance.promises == old(instance.promises)[old(instance.nextCommandId) := resolver]
              && instance.written == old(instance.written) + [EncodeRequest(MakeRequest(old(instance.nextCommandId), call))]
              && instance.processRunning
              && instance.currentServerModificationTime == old(instance.currentServerModificationTime))
    {
      var currentModificationDate := ReadModificationTime(instance.serverPath, diskModificationTime);
      if currentModificationDate != instance.currentServerModificationTime {
        instance.Kill();
        instance := new LanguageServer(instance.serverPath, diskModificationTime);
      }
      r := instance.Command(call, resolver);
    }

    /** The static `kill`. */
    method Kill()
      requires Valid()
      modifies instance`processRunning
      ensures Valid()
      ensures !instance.processRunning
    {
      instance.Kill();
    }
  }
}
