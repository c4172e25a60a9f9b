/**
 The two observers of one proxied connection, linked as peers. A message
 received on one leg is handled by that leg's observer, with the other leg's
 observer as its peer, and what it forwards is sent out on the other leg.
 Requests travel from the server to the client, so they are received on the
 server leg and recorded in the client leg's table; their responses are
 received on the client leg.
 */
module Relay {
  import opened Wrappers
  import opened Messages
  import opened DeviceRedirection
  import Buffer
  import Paths

  datatype Leg = ClientLeg | ServerLeg
  {
    function Other(): Leg
    {
      if this == ClientLeg then ServerLeg else ClientLeg
    }
  }

  datatype Connection = Connection(client: Observer, server: Observer)
  {
    function At(leg: Leg): Observer
    {
      if leg == ClientLeg then client else server
    }

    function With(leg: Leg, obs: Observer): (c: Connection)
      ensures c.At(leg) == obs && c.At(leg.Other()) == At(leg.Other())
    {
      if leg == ClientLeg then this.(client := obs) else this.(server := obs)
    }
  }

  /** Both observers as constructed. */
  const Fresh: Connection := Connection(Initial, Initial)

  /** The connection after one message, and what came of it; a forwarded
      message goes out on the leg opposite to the one it arrived on. */
  datatype Delivery = Delivery(conn: Connection, outcome: Outcome)

  function Receive(c: Connection, leg: Leg, msg: Message): (d: Delivery)
    ensures msg.Request? ==>
      && d.conn.At(leg) == c.At(leg)
      && msg.request.completionId in d.conn.At(leg.Other()).inProgress
      && d.conn.At(leg.Other()).inProgress[msg.request.completionId] == msg.request
    ensures msg.Response? ==> d.conn.At(leg.Other()) == c.At(leg.Other())
    ensures !msg.Request? && !msg.Response? ==> d == Delivery(c, Forwarded(AsReceived(msg), None))
  {
    var s := OnPduReceived(c.At(leg), c.At(leg.Other()), msg);
    Delivery(c.With(leg, s.self).With(leg.Other(), s.peer), s.outcome)
  }

  /** A request whose response changes no registry or buffer (a close of an
      untracked file, a create that is not a read-open, any other kind)
      leaves no trace once its response has been matched: the connection is
      back where it started and both messages were forwarded unchanged. */
  lemma RequestResponseRoundTrip(c: Connection, req: IORequest, resp: IOResponse)
    requires req.completionId !in c.client.inProgress
    requires resp.completionId == req.completionId
    requires || req.OtherRequest?
             || (req.CloseRequest? && req.fileId !in c.client.openedFiles)
             || (req.CreateRequest? && !IsReadOpen(req))
    ensures var d1 := Receive(c, ServerLeg, Request(req));
            var d2 := Receive(d1.conn, ClientLeg, Response(resp));
            && d1.outcome == Forwarded(AsReceived(Request(req)), None)
            && d2.conn == c
            && d2.outcome.Forwarded? && d2.outcome.write == None
  {
    var d1 := Receive(c, ServerLeg, Request(req));
    var client1 := d1.conn.client;
    assert client1.inProgress == c.client.inProgress[req.completionId := req];
    assert client1.openedFiles == c.client.openedFiles;
    var d2 := Receive(d1.conn, ClientLeg, Response(resp));
    assert d2.conn.client.inProgress == c.client.inProgress by {
      assert d2.conn.client.inProgress.Keys == c.client.inProgress.Keys;
    }
  }

  /** A create request for reading, answered: the client leg's registry
      binds the assigned file id to the requested path; nothing else changes. */
  lemma OpenExchange(c: Connection, req: IORequest, resp: IOResponse)
    requires req.CreateRequest? && IsReadOpen(req)
    requires req.completionId !in c.client.inProgress
    requires resp.completionId == req.completionId
    ensures var d1 := Receive(c, ServerLeg, Request(req));
            var d2 := Receive(d1.conn, ClientLeg, Response(resp));
            && d1.outcome == Forwarded(AsReceived(Request(req)), None)
            && d2.outcome == Forwarded(CreateResponsePdu(resp), None)
            && d2.conn == Connection(c.client.(openedFiles := c.client.openedFiles[resp.fileId := req.path]), c.server)
  {
    var d1 := Receive(c, ServerLeg, Request(req));
    var d2 := Receive(d1.conn, ClientLeg, Response(resp));
    assert d2.conn.client.inProgress == c.client.inProgress by {
      assert d2.conn.client.inProgress.Keys == c.client.inProgress.Keys;
    }
  }

  /** The response to a pending read of a tracked file, received on the
      client leg: the payload is written into the path's buffer at the
      requested offset and the completion id is retired; nothing else changes. */
  lemma ReadAnswered(c: Connection, resp: IOResponse)
    requires resp.completionId in c.client.inProgress
    requires c.client.inProgress[resp.completionId].ReadRequest?
    requires c.client.inProgress[resp.completionId].fileId in c.client.openedFiles
    ensures var req := c.client.inProgress[resp.completionId];
            var d := Receive(c, ClientLeg, Response(resp));
            var name := PathOf(c.client, req.fileId);
            var before := if name in c.client.finalFiles then c.client.finalFiles[name] else [];
            && d.outcome == Forwarded(ReadResponsePdu(resp), None)
            && d.conn == Connection(
                 c.client.(inProgress := c.client.inProgress - {resp.completionId},
                           finalFiles := c.client.finalFiles[name := Buffer.WriteAt(before, req.offset, resp.readData)]),
                 c.server)
  {
    var req := c.client.inProgress[resp.completionId];
    var d := Receive(c, ClientLeg, Response(resp));
    var name := PathOf(c.client, req.fileId);
    var before := if name in c.client.finalFiles then c.client.finalFiles[name] else [];
    var after := Buffer.WriteAt(before, req.offset, resp.readData);
    Buffer.WriteIsDetermined(before, req.offset, resp.readData, d.conn.client.finalFiles[name], after);
    assert d.conn.client.finalFiles == c.client.finalFiles[name := after] by {
      assert d.conn.client.finalFiles.Keys == c.client.finalFiles[name := after].Keys;
    }
    assert d.conn.client.inProgress == c.client.inProgress - {resp.completionId} by {
      assert d.conn.client.inProgress.Keys == (c.client.inProgress - {resp.completionId}).Keys;
    }
  }

  /** A read request for a tracked file, answered: the payload is written
      into the path's buffer at the requested offset; nothing else changes. */
  lemma ReadExchange(c: Connection, req: IORequest, resp: IOResponse)
    requires req.ReadRequest? && req.fileId in c.client.openedFiles
    requires req.completionId !in c.client.inProgress
    requires resp.completionId == req.completionId
    ensures var d1 := Receive(c, ServerLeg, Request(req));
            var d2 := Receive(d1.conn, ClientLeg, Response(resp));
            var name := PathOf(c.client, req.fileId);
            var before := if name in c.client.finalFiles then c.client.finalFiles[name] else [];
            && d1.outcome == Forwarded(AsReceived(Request(req)), None)
            && d2.outcome == Forwarded(ReadResponsePdu(resp), None)
            && d2.conn == Connection(
                 c.client.(finalFiles := c.client.finalFiles[name := Buffer.WriteAt(before, req.offset, resp.readData)]),
                 c.server)
  {
    var d1 := Receive(c, ServerLeg, Request(req));
    assert d1.conn == Connection(c.client.(inProgress := c.client.inProgress[req.completionId := req]), c.server);
    ReadAnswered(d1.conn, resp);
    assert c.client.inProgress[req.completionId := req] - {req.completionId} == c.client.inProgress;
  }

  /** A close request for a tracked, read file, answered: the buffer of its
      path is saved whole and the file id is forgotten; the buffer stays. */
  lemma CloseExchange(c: Connection, req: IORequest, resp: IOResponse)
    requires req.CloseRequest? && req.fileId in c.client.openedFiles
    requires PathOf(c.client, req.fileId) in c.client.finalFiles
    requires req.completionId !in c.client.inProgress
    requires resp.completionId == req.completionId
    ensures var d1 := Receive(c, ServerLeg, Request(req));
            var d2 := Receive(d1.conn, ClientLeg, Response(resp));
            var name := PathOf(c.client, req.fileId);
            && d1.outcome == Forwarded(AsReceived(Request(req)), None)
            && d2.outcome == Forwarded(AsReceived(Response(resp)),
                 Some(DiskWrite(Paths.DiskPath(name), c.client.finalFiles[name])))
            && d2.conn == Connection(c.client.(openedFiles := c.client.openedFiles - {req.fileId}), c.server)
  {
    var d1 := Receive(c, ServerLeg, Request(req));
    var d2 := Receive(d1.conn, ClientLeg, Response(resp));
    assert d2.conn.client.inProgress == c.client.inProgress by {
      assert d2.conn.client.inProgress.Keys == c.client.inProgress.Keys;
    }
    assert d2.conn.client.openedFiles == c.client.openedFiles - {req.fileId} by {
      assert d2.conn.client.openedFiles.Keys == (c.client.openedFiles - {req.fileId}).Keys;
    }
  }
}
