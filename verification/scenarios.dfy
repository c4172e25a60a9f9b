/**
 End-to-end runs of a connection: a client file opened for reading, read in
 two pieces and closed is saved, byte for byte, under the capture directory.
 */
module Scenarios {
  import opened Bytes
  import opened Wrappers
  import opened Messages
  import opened DeviceRedirection
  import opened Relay
  import Utf16
  import Paths

  const ReportName: string := "\\tsclient\\c\\report.txt"

  const Hello: seq<byte> := [0x68, 0x65, 0x6C, 0x6C, 0x6F]
  const World: seq<byte> := [0x20, 0x77, 0x6F, 0x72, 0x6C, 0x64]
  const HelloWorld: seq<byte> := Hello + World

  const ReportLocal: string := "/tsclient/c/report.txt"

  lemma ReportTurned()
    ensures Paths.ToForwardSlashes(ReportName) == ReportLocal
  {
  }

  lemma ReportStripped()
    ensures Paths.StripDotDot(ReportLocal) == ReportLocal
  {
    Paths.StripDotDotKeepsClean(ReportLocal);
  }

  lemma ReportSanitized()
    ensures Paths.Sanitize(ReportName) == ReportLocal
  {
    ReportTurned();
    ReportStripped();
  }

  /** The saved file lands under the capture directory, slashes turned.
      The name is a parameter pinned to `ReportName`, rather than the
      constant itself, so that the prover does not evaluate the sanitiser
      character by character on the literal. */
  lemma ReportDiskPath(name: string)
    requires name == ReportName
    ensures Paths.DiskPath(name) == "./saved_files//tsclient/c/report.txt"
  {
    ReportUnderRoot(name);
    ReportRootJoined();
  }

  lemma ReportUnderRoot(name: string)
    requires name == ReportName
    ensures Paths.DiskPath(name) == Paths.CaptureRoot + ReportLocal
  {
    ReportSanitized();
  }

  lemma ReportRootJoined()
    ensures Paths.CaptureRoot + ReportLocal == "./saved_files//tsclient/c/report.txt"
  {
  }

  /** The create request of the scenario, for the file `name` sent NUL-terminated. */
  function OpenFor(name: string): IORequest
  {
    CreateRequest(1, GENERIC_READ, FILE_NON_DIRECTORY_FILE, Utf16.EncodeLe(name + "\0"))
  }

  /** The client leg's observer with file id 7 open on `name`, the given
      requests pending, and the given buffers. */
  function ClientPending(name: string, pending: map<nat, IORequest>, buffers: map<string, seq<byte>>): Observer
  {
    Observer(pending, map[7 := Utf16.EncodeLe(name + "\0")], buffers)
  }

  lemma OpenStage(name: string)
    ensures
      var d1 := Receive(Fresh, ServerLeg, Request(OpenFor(name)));
      var d2 := Receive(d1.conn, ClientLeg, Response(IOResponse(1, 0, 7, [])));
      && d2.outcome.Forwarded?
      && d2.conn == Connection(ClientPending(name, map[], map[]), Initial)
  {
    OpenExchange(Fresh, OpenFor(name), IOResponse(1, 0, 7, []));
  }

  /** The path registered for file id 7 decodes back to `name`. */
  lemma PendingPath(name: string, pending: map<nat, IORequest>, buffers: map<string, seq<byte>>)
    requires '\0' !in name
    ensures PathOf(ClientPending(name, pending, buffers), 7) == name
  {
    Paths.BytesToPathOfTerminated(name);
  }

  lemma FrontRead(name: string, front: seq<byte>)
    requires '\0' !in name
    ensures
      var c := Connection(ClientPending(name, map[], map[]), Initial);
      var d3 := Receive(c, ServerLeg, Request(ReadRequest(2, 7, 0, |front|)));
      var d4 := Receive(d3.conn, ClientLeg, Response(IOResponse(2, 0, 0, front)));
      && d4.outcome.Forwarded?
      && d4.conn == Connection(ClientPending(name, map[], map[name := front]), Initial)
  {
    var c := Connection(ClientPending(name, map[], map[]), Initial);
    PendingPath(name, map[], map[]);
    Buffer.WriteAtEndAppends([], front);
    assert [] + front == front;
    ReadExchange(c, ReadRequest(2, 7, 0, |front|), IOResponse(2, 0, 0, front));
  }

  lemma BackRead(name: string, front: seq<byte>, back: seq<byte>)
    requires '\0' !in name
    ensures
      var c := Connection(ClientPending(name, map[], map[name := front]), Initial);
      var d5 := Receive(c, ServerLeg, Request(ReadRequest(3, 7, |front|, |back|)));
      var d6 := Receive(d5.conn, ClientLeg, Response(IOResponse(3, 0, 0, back)));
      && d6.outcome.Forwarded?
      && d6.conn == Connection(ClientPending(name, map[], map[name := front + back]), Initial)
  {
    var c := Connection(ClientPending(name, map[], map[name := front]), Initial);
    PendingPath(name, map[], map[name := front]);
    Buffer.WriteAtEndAppends(front, back);
    ReadExchange(c, ReadRequest(3, 7, |front|, |back|), IOResponse(3, 0, 0, back));
  }

  lemma ContentsClosed(name: string, contents: seq<byte>)
    requires '\0' !in name
    ensures
      var c := Connection(ClientPending(name, map[], map[name := contents]), Initial);
      var d7 := Receive(c, ServerLeg, Request(CloseRequest(4, 7)));
      var d8 := Receive(d7.conn, ClientLeg, Response(IOResponse(4, 0, 0, [])));
      && d8.outcome == Forwarded(AsReceived(Response(IOResponse(4, 0, 0, []))),
                                 Some(DiskWrite(Paths.DiskPath(name), contents)))
      && d8.conn == Connection(Observer(map[], map[], map[name := contents]), Initial)
  {
    var c := Connection(ClientPending(name, map[], map[name := contents]), Initial);
    PendingPath(name, map[], map[name := contents]);
    CloseExchange(c, CloseRequest(4, 7), IOResponse(4, 0, 0, []));
    assert map[7 := Utf16.EncodeLe(name + "\0")] - {7} == map[];
  }

  /** Create for reading (file id 7) the file `name`, sent NUL-terminated;
      read `front` at offset 0; read `back` right after it; close. The close
      saves front followed by back under the sanitised name, and afterwards
      every completion table and file registry is empty again, while the
      buffer stays. */
  lemma InOrder(name: string, front: seq<byte>, back: seq<byte>)
    requires '\0' !in name
    ensures
      var d1 := Receive(Fresh, ServerLeg, Request(OpenFor(name)));
      var d2 := Receive(d1.conn, ClientLeg, Response(IOResponse(1, 0, 7, [])));
      var d3 := Receive(d2.conn, ServerLeg, Request(ReadRequest(2, 7, 0, |front|)));
      var d4 := Receive(d3.conn, ClientLeg, Response(IOResponse(2, 0, 0, front)));
      var d5 := Receive(d4.conn, ServerLeg, Request(ReadRequest(3, 7, |front|, |back|)));
      var d6 := Receive(d5.conn, ClientLeg, Response(IOResponse(3, 0, 0, back)));
      var d7 := Receive(d6.conn, ServerLeg, Request(CloseRequest(4, 7)));
      var d8 := Receive(d7.conn, ClientLeg, Response(IOResponse(4, 0, 0, [])));
      && d8.outcome.Forwarded?
      && d8.outcome.write == Some(DiskWrite(Paths.DiskPath(name), front + back))
      && d8.conn.client.inProgress == map[] && d8.conn.client.openedFiles == map[]
      && d8.conn.server.inProgress == map[] && d8.conn.server.openedFiles == map[]
      && d8.conn.client.finalFiles == map[name := front + back]
  {
    OpenStage(name);
    FrontRead(name, front);
    BackRead(name, front, back);
    ContentsClosed(name, front + back);
  }

  /** The in-order run with "hello" and " world": "hello world" is saved. */
  lemma HelloWorldInOrder(name: string)
    requires '\0' !in name
    ensures
      var d1 := Receive(Fresh, ServerLeg, Request(OpenFor(name)));
      var d2 := Receive(d1.conn, ClientLeg, Response(IOResponse(1, 0, 7, [])));
      var d3 := Receive(d2.conn, ServerLeg, Request(ReadRequest(2, 7, 0, 5)));
      var d4 := Receive(d3.conn, ClientLeg, Response(IOResponse(2, 0, 0, Hello)));
      var d5 := Receive(d4.conn, ServerLeg, Request(ReadRequest(3, 7, 5, 6)));
      var d6 := Receive(d5.conn, ClientLeg, Response(IOResponse(3, 0, 0, World)));
      var d7 := Receive(d6.conn, ServerLeg, Request(CloseRequest(4, 7)));
      var d8 := Receive(d7.conn, ClientLeg, Response(IOResponse(4, 0, 0, [])));
      && d8.outcome.Forwarded?
      && d8.outcome.write == Some(DiskWrite(Paths.DiskPath(name), HelloWorld))
      && d8.conn.client.inProgress == map[] && d8.conn.client.openedFiles == map[]
      && d8.conn.server.inProgress == map[] && d8.conn.server.openedFiles == map[]
      && d8.conn.client.finalFiles == map[name := HelloWorld]
  {
    InOrder(name, Hello, World);
  }

  lemma TwoReadsRequested(name: string, front: seq<byte>, back: seq<byte>)
    ensures
      var c := Connection(ClientPending(name, map[], map[]), Initial);
      var d3 := Receive(c, ServerLeg, Request(ReadRequest(2, 7, 0, |front|)));
      var d4 := Receive(d3.conn, ServerLeg, Request(ReadRequest(3, 7, |front|, |back|)));
      && d3.outcome.Forwarded? && d4.outcome.Forwarded?
      && d4.conn == Connection(ClientPending(name,
           map[2 := ReadRequest(2, 7, 0, |front|), 3 := ReadRequest(3, 7, |front|, |back|)], map[]), Initial)
  {
  }

  lemma BackAnswered(name: string, front: seq<byte>, back: seq<byte>)
    requires '\0' !in name
    ensures
      var c := Connection(ClientPending(name,
                 map[2 := ReadRequest(2, 7, 0, |front|), 3 := ReadRequest(3, 7, |front|, |back|)], map[]), Initial);
      var d5 := Receive(c, ClientLeg, Response(IOResponse(3, 0, 0, back)));
      && d5.outcome.Forwarded?
      && d5.conn == Connection(ClientPending(name,
           map[2 := ReadRequest(2, 7, 0, |front|)], map[name := Buffer.WriteAt([], |front|, back)]), Initial)
  {
    var pending := map[2 := ReadRequest(2, 7, 0, |front|), 3 := ReadRequest(3, 7, |front|, |back|)];
    PendingPath(name, pending, map[]);
    ReadAnswered(Connection(ClientPending(name, pending, map[]), Initial), IOResponse(3, 0, 0, back));
    assert pending - {3} == map[2 := ReadRequest(2, 7, 0, |front|)];
  }

  lemma FrontAnswered(name: string, front: seq<byte>, back: seq<byte>)
    requires '\0' !in name
    ensures
      var c := Connection(ClientPending(name,
                 map[2 := ReadRequest(2, 7, 0, |front|)], map[name := Buffer.WriteAt([], |front|, back)]), Initial);
      var d6 := Receive(c, ClientLeg, Response(IOResponse(2, 0, 0, front)));
      && d6.outcome.Forwarded?
      && d6.conn == Connection(ClientPending(name, map[], map[name := front + back]), Initial)
  {
    var pending := map[2 := ReadRequest(2, 7, 0, |front|)];
    var gap := Buffer.WriteAt([], |front|, back);
    PendingPath(name, pending, map[name := gap]);
    Buffer.TwoPiecesEitherOrder(front, back);
    ReadAnswered(Connection(ClientPending(name, pending, map[name := gap]), Initial), IOResponse(2, 0, 0, front));
    assert pending - {2} == map[];
  }

  /** A file read in two pieces, both requested before either is answered
      and answered back piece first, is saved as the front piece followed by
      the back piece: arrival order does not matter. */
  lemma TwoPiecesReversed(name: string, front: seq<byte>, back: seq<byte>)
    requires '\0' !in name
    ensures
      var d1 := Receive(Fresh, ServerLeg, Request(OpenFor(name)));
      var d2 := Receive(d1.conn, ClientLeg, Response(IOResponse(1, 0, 7, [])));
      var d3 := Receive(d2.conn, ServerLeg, Request(ReadRequest(2, 7, 0, |front|)));
      var d4 := Receive(d3.conn, ServerLeg, Request(ReadRequest(3, 7, |front|, |back|)));
      var d5 := Receive(d4.conn, ClientLeg, Response(IOResponse(3, 0, 0, back)));
      var d6 := Receive(d5.conn, ClientLeg, Response(IOResponse(2, 0, 0, front)));
      var d7 := Receive(d6.conn, ServerLeg, Request(CloseRequest(4, 7)));
      var d8 := Receive(d7.conn, ClientLeg, Response(IOResponse(4, 0, 0, [])));
      && d8.outcome.Forwarded?
      && d8.outcome.write == Some(DiskWrite(Paths.DiskPath(name), front + back))
      && d8.conn.client.inProgress == map[] && d8.conn.client.openedFiles == map[]
  {
    OpenStage(name);
    TwoReadsRequested(name, front, back);
    BackAnswered(name, front, back);
    FrontAnswered(name, front, back);
    ContentsClosed(name, front + back);
  }

  /** The concrete run for the report file: "hello world" lands at
      ./saved_files//tsclient/c/report.txt. As in `ReportDiskPath`, the name
      is a parameter pinned to `ReportName` to keep the literal from being
      evaluated step by step. */
  lemma ReportScenario(name: string)
    requires name == ReportName
    ensures
      var d1 := Receive(Fresh, ServerLeg, Request(OpenFor(name)));
      var d2 := Receive(d1.conn, ClientLeg, Response(IOResponse(1, 0, 7, [])));
      var d3 := Receive(d2.conn, ServerLeg, Request(ReadRequest(2, 7, 0, 5)));
      var d4 := Receive(d3.conn, ClientLeg, Response(IOResponse(2, 0, 0, Hello)));
      var d5 := Receive(d4.conn, ServerLeg, Request(ReadRequest(3, 7, 5, 6)));
      var d6 := Receive(d5.conn, ClientLeg, Response(IOResponse(3, 0, 0, World)));
      var d7 := Receive(d6.conn, ServerLeg, Request(CloseRequest(4, 7)));
      var d8 := Receive(d7.conn, ClientLeg, Response(IOResponse(4, 0, 0, [])));
      && d8.outcome.Forwarded?
      && d8.outcome.write == Some(DiskWrite("./saved_files//tsclient/c/report.txt", HelloWorld))
  {
    assert '\0' !in name;
    HelloWorldInOrder(name);
    ReportDiskPath(name);
  }
}
