/**
 The passive device redirection observer. One observer sits on each leg of a
 proxied connection; each owns three dictionaries:

 - `inProgress`: completion id -> the request awaiting its response,
 - `openedFiles`: file id -> raw path bytes of a file opened for reading,
 - `finalFiles`: decoded path -> reconstruction buffer.

 Handling one message is a pure function from the receiving observer and its
 peer to their new states and an outcome: either the message handed to the
 peer for sending (plus, on a close, the file to save), or the key lookup
 that failed. A failed lookup aborts the handling, so nothing is forwarded;
 any dictionary write made before the failure stays.
 */
module DeviceRedirection {
  import opened Bytes
  import opened Wrappers
  import opened Messages
  import opened Maps
  import Paths
  import Buffer

  datatype Observer = Observer(
    inProgress: map<nat, IORequest>,
    openedFiles: map<nat, seq<byte>>,
    finalFiles: map<string, seq<byte>>)

  /** The state of a freshly constructed observer. */
  const Initial: Observer := Observer(map[], map[], map[])

  /** The local file to create and the full bytes to store in it. */
  datatype DiskWrite = DiskWrite(path: string, contents: seq<byte>)

  /** A dictionary lookup on a missing key. */
  datatype Fault =
    | UnknownFileId(fileId: nat)
    | NoBufferForPath(path: string)

  datatype Outcome =
    | Forwarded(pdu: Outgoing, write: Option<DiskWrite>)
    | Raised(fault: Fault)

  /** The receiving observer and its peer after one message, and what came of it. */
  datatype Step = Step(self: Observer, peer: Observer, outcome: Outcome)

  /** The result of a response handler that does not touch the completion table. */
  datatype Handled =
    | Handled(obs: Observer, pdu: Outgoing, write: Option<DiskWrite>)
    | Failed(fault: Fault)

  /** A request is stored in the peer's table, since its response will arrive
      on the peer's leg; a read request then looks its file id up in the
      peer's registry (to name the file in a diagnostic), which fails for an
      untracked file after the table has been written. */
  function DealWithRequest(self: Observer, peer: Observer, req: IORequest): (r: Step)
    ensures r.self == self
    ensures StoredAt(peer.inProgress, r.peer.inProgress, req.completionId, req)
    ensures r.peer.openedFiles == peer.openedFiles && r.peer.finalFiles == peer.finalFiles
    ensures r.outcome.Raised? <==> req.ReadRequest? && req.fileId !in peer.openedFiles
    ensures r.outcome.Raised? ==> r.outcome.fault == UnknownFileId(req.fileId)
    ensures r.outcome.Forwarded? ==> r.outcome == Forwarded(AsReceived(Request(req)), None)
  {
    var peer' := peer.(inProgress := peer.inProgress[req.completionId := req]);
    if req.ReadRequest? && req.fileId !in peer.openedFiles then
      Step(self, peer', Raised(UnknownFileId(req.fileId)))
    else
      Step(self, peer', Forwarded(AsReceived(Request(req)), None))
  }

  /** The buffer key of a tracked file id. */
  function PathOf(self: Observer, fileId: nat): string
    requires fileId in self.openedFiles
  {
    Paths.BytesToPath(self.openedFiles[fileId])
  }

  /** A read response writes its payload into the buffer of the file the
      request read from, at the request's offset, creating the buffer empty
      on first use. The forwarded message is the reinterpreted response. */
  function DealWithReadResponse(self: Observer, resp: IOResponse, req: IORequest): (r: Handled)
    requires req.ReadRequest?
    ensures r.Failed? <==> req.fileId !in self.openedFiles
    ensures r.Failed? ==> r.fault == UnknownFileId(req.fileId)
    ensures r.Handled? ==>
      && r.obs.inProgress == self.inProgress
      && r.obs.openedFiles == self.openedFiles
      && r.pdu == ReadResponsePdu(resp)
      && r.write == None
    ensures r.Handled? ==>
      var name := PathOf(self, req.fileId);
      var before := if name in self.finalFiles then self.finalFiles[name] else [];
      && r.obs.finalFiles.Keys == self.finalFiles.Keys + {name}
      && Buffer.IsWriteOf(before, req.offset, resp.readData, r.obs.finalFiles[name])
      && forall p :: p in self.finalFiles && p != name ==> r.obs.finalFiles[p] == self.finalFiles[p]
  {
    if req.fileId !in self.openedFiles then Failed(UnknownFileId(req.fileId))
    else
      var name := PathOf(self, req.fileId);
      var before := if name in self.finalFiles then self.finalFiles[name] else [];
      var after := Buffer.WriteAt(before, req.offset, resp.readData);
      Handled(self.(finalFiles := self.finalFiles[name := after]), ReadResponsePdu(resp), None)
  }

  /** A create response registers the file id the server assigned, bound to
      the requested path, exactly when the request opened a regular file for
      reading. The forwarded message is the reinterpreted response. */
  function DealWithCreateResponse(self: Observer, resp: IOResponse, req: IORequest): (r: Handled)
    requires req.CreateRequest?
    ensures r.Handled?
    ensures r.obs.inProgress == self.inProgress && r.obs.finalFiles == self.finalFiles
    ensures r.pdu == CreateResponsePdu(resp) && r.write == None
    ensures IsReadOpen(req) ==> StoredAt(self.openedFiles, r.obs.openedFiles, resp.fileId, req.path)
    ensures !IsReadOpen(req) ==> r.obs.openedFiles == self.openedFiles
  {
    if IsReadOpen(req) then
      Handled(self.(openedFiles := self.openedFiles[resp.fileId := req.path]), CreateResponsePdu(resp), None)
    else
      Handled(self, CreateResponsePdu(resp), None)
  }

  /** A close response for a tracked file id saves the whole current buffer
      of its path and forgets the file id; the buffer itself is kept. A close
      of an untracked file id changes and saves nothing. A tracked file that
      was never read has no buffer, and the lookup fails. */
  function DealWithCloseResponse(self: Observer, resp: IOResponse, req: IORequest): (r: Handled)
    requires req.CloseRequest?
    ensures req.fileId !in self.openedFiles ==> r == Handled(self, AsReceived(Response(resp)), None)
    ensures r.Failed? <==> req.fileId in self.openedFiles && PathOf(self, req.fileId) !in self.finalFiles
    ensures r.Failed? ==> r.fault == NoBufferForPath(PathOf(self, req.fileId))
    ensures r.Handled? ==> r.pdu == AsReceived(Response(resp))
    ensures r.Handled? ==>
      && r.obs.inProgress == self.inProgress
      && r.obs.finalFiles == self.finalFiles
    ensures r.Handled? && req.fileId in self.openedFiles ==>
      var name := PathOf(self, req.fileId);
      && RemovedAt(self.openedFiles, r.obs.openedFiles, req.fileId)
      && r.write == Some(DiskWrite(Paths.DiskPath(name), self.finalFiles[name]))
  {
    if req.fileId !in self.openedFiles then Handled(self, AsReceived(Response(resp)), None)
    else
      var name := PathOf(self, req.fileId);
      if name !in self.finalFiles then Failed(NoBufferForPath(name))
      else
        var saved := DiskWrite(Paths.DiskPath(name), self.finalFiles[name]);
        Handled(self.(openedFiles := self.openedFiles - {req.fileId}), AsReceived(Response(resp)), Some(saved))
  }

  /** The handler for a response, chosen by the kind of the request it answers. */
  function Dispatch(self: Observer, resp: IOResponse, req: IORequest): Handled
  {
    match req
    case ReadRequest(_, _, _, _) => DealWithReadResponse(self, resp, req)
    case CreateRequest(_, _, _, _) => DealWithCreateResponse(self, resp, req)
    case CloseRequest(_, _) => DealWithCloseResponse(self, resp, req)
    case OtherRequest(_, _) => Handled(self, AsReceived(Response(resp)), None)
  }

  /** A response is matched against this observer's table. An unknown
      completion id changes nothing and the response is forwarded as is.
      A known one is handled according to its request and, once handled,
      removed from the table; if handling fails it stays. The response
      status is only reported, whatever its severity. */
  function DealWithResponse(self: Observer, peer: Observer, resp: IOResponse): (r: Step)
    ensures r.peer == peer
    ensures resp.completionId !in self.inProgress ==>
      r == Step(self, peer, Forwarded(AsReceived(Response(resp)), None))
    ensures r.outcome.Raised? ==> r.self == self
    ensures resp.completionId in self.inProgress && r.outcome.Forwarded? ==>
      RemovedAt(self.inProgress, r.self.inProgress, resp.completionId)
  {
    if resp.completionId !in self.inProgress then
      Step(self, peer, Forwarded(AsReceived(Response(resp)), None))
    else
      var req := self.inProgress[resp.completionId];
      match Dispatch(self, resp, req)
      case Failed(fault) => Step(self, peer, Raised(fault))
      case Handled(obs, pdu, write) =>
        Step(obs.(inProgress := obs.inProgress - {resp.completionId}), peer, Forwarded(pdu, write))
  }

  /** Handling of any message received by `self`. Requests only change the
      peer; responses only change `self`; device announcements and other
      messages change nothing and are forwarded as received. */
  function OnPduReceived(self: Observer, peer: Observer, msg: Message): (r: Step)
    ensures msg.Request? ==> r.self == self
    ensures msg.Response? ==> r.peer == peer
    ensures (msg.DeviceListAnnounce? || msg.Unparsed?) ==>
      r == Step(self, peer, Forwarded(AsReceived(msg), None))
    ensures r.outcome.Forwarded? && !msg.Response? ==> r.outcome == Forwarded(AsReceived(msg), None)
  {
    match msg
    case Request(req) => DealWithRequest(self, peer, req)
    case Response(resp) => DealWithResponse(self, peer, resp)
    case DeviceListAnnounce(_) => Step(self, peer, Forwarded(AsReceived(msg), None))
    case Unparsed(_) => Step(self, peer, Forwarded(AsReceived(msg), None))
  }

  /** The response status steers nothing: two responses differing only in
      status lead to the same states, the same fault or saved file, and the
      same kind of forwarded message. An error-severity status is reported,
      no more. */
  lemma StatusOnlyReported(self: Observer, peer: Observer, resp: IOResponse, status: bv32)
    ensures
      var a := OnPduReceived(self, peer, Response(resp));
      var b := OnPduReceived(self, peer, Response(resp.(ioStatus := status)));
      && a.self == b.self && a.peer == b.peer
      && a.outcome.Raised? == b.outcome.Raised?
      && (a.outcome.Raised? ==> a.outcome == b.outcome)
      && (a.outcome.Forwarded? ==>
            && a.outcome.write == b.outcome.write
            && a.outcome.pdu.AsReceived? == b.outcome.pdu.AsReceived?
            && a.outcome.pdu.ReadResponsePdu? == b.outcome.pdu.ReadResponsePdu?)
  {
    var resp' := resp.(ioStatus := status);
    if resp.completionId in self.inProgress {
      var req := self.inProgress[resp.completionId];
      var x, y := Dispatch(self, resp, req), Dispatch(self, resp', req);
      assert x.Failed? == y.Failed?;
      assert x.Failed? ==> x.fault == y.fault;
      assert x.Handled? ==> x.obs == y.obs && x.write == y.write;
    }
  }

  /** Every pending request sits under its own completion id. */
  predicate KeyedByCompletionId(obs: Observer)
  {
    forall id :: id in obs.inProgress ==> obs.inProgress[id].completionId == id
  }

  /** Handling a message keeps both completion tables keyed by completion id. */
  lemma KeyingPreserved(self: Observer, peer: Observer, msg: Message)
    requires KeyedByCompletionId(self) && KeyedByCompletionId(peer)
    ensures var r := OnPduReceived(self, peer, msg);
            KeyedByCompletionId(r.self) && KeyedByCompletionId(r.peer)
  {
  }

  /** Reconstruction buffers are never dropped: no message removes a path
      from either observer's buffer set, and only a read response changes
      a buffer's contents. */
  lemma BuffersPersist(self: Observer, peer: Observer, msg: Message)
    ensures var r := OnPduReceived(self, peer, msg);
            && self.finalFiles.Keys <= r.self.finalFiles.Keys
            && r.peer.finalFiles == peer.finalFiles
            && (r.self.finalFiles != self.finalFiles ==>
                  && msg.Response?
                  && msg.response.completionId in self.inProgress
                  && self.inProgress[msg.response.completionId].ReadRequest?)
  {
  }
}
