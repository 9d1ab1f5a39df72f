/** cpp/client.cc: resolve, try the endpoints, send the header, then the file block by block. */
module CppClient {
  import opened Bytes
  import opened CLib
  import opened CppFileInfo
  import opened Stdio

  type Endpoint = nat

  /** The completion a client waits for. */
  datatype Op = Resolving | Connecting | Writing | Idle
  datatype Failure = ResolveError | ConnectError | SendError
  datatype WriteError = NoError | EofError | OtherError

  /** rest: the endpoints after the iterator; unread: the file beyond the read position;
      writes: the buffers passed to async_write, whose bytes are taken at the call. */
  datatype Sender = Sender(op: Op, attempts: seq<Endpoint>, rest: seq<Endpoint>, headers: nat, unread: seq<byte>,
                           filesize: nat, writes: seq<seq<byte>>, shutdown: bool, closed: bool,
                           errors: seq<Failure>, overrun: bool)

  function NewSender(content: seq<byte>): Sender {
    Sender(Resolving, [], [], 0, content, 0, [], false, false, [], false)
  }

  /** The 128 characters sent first: the header over an uninitialised array; None if it does
      not fit there. */
  function InfoBlock(name: seq<byte>, garbage: InfoArray): Option<InfoArray> {
    if |name| <= LONGEST_NAME then Some(HeaderBlock(name, garbage)) else None
  }

  /** Only the header has been written, nothing of the file was read, and nothing went wrong. */
  predicate ReadyToSend(content: seq<byte>, block: seq<byte>, s: Sender) {
    && s.op == Writing && s.writes == [block] && s.unread == content && s.filesize == 0
    && !s.shutdown && Endings(s) == 0
  }

  /** How many ways of ending the client has reported. */
  function Endings(s: Sender): nat {
    |s.errors| + (if s.shutdown then 1 else 0) + (if s.closed then 1 else 0) + (if s.overrun then 1 else 0)
  }

  function OnResolve(s: Sender, found: Option<seq<Endpoint>>): Sender
    requires found.Some? ==> found.value != []
  {
    match found
    case Some(endpoints) => s.(op := Connecting, attempts := [endpoints[0]], rest := endpoints[1..])
    case None => s.(op := Idle, errors := s.errors + [ResolveError])
  }

  function OnConnect(s: Sender, info: Option<InfoArray>, accepted: bool): Sender {
    if accepted then
      match info
      case Some(block) => s.(op := Writing, headers := s.headers + 1, writes := s.writes + [block])
      case None => s.(op := Idle, overrun := true)
    else if s.rest != [] then s.(attempts := s.attempts + [s.rest[0]], rest := s.rest[1..])
    else s.(op := Idle, errors := s.errors + [ConnectError])
  }

  function OnWritten(s: Sender, err: WriteError): Sender {
    match err
    case NoError =>
      var block := Take(s.unread, BUFSIZ);
      if block != [] then
        s.(unread := Drop(s.unread, BUFSIZ), filesize := s.filesize + |block|, writes := s.writes + [block])
      else s.(op := Idle, shutdown := true)
    case EofError => s.(op := Idle, closed := true)
    case OtherError => s.(op := Idle, errors := s.errors + [SendError])
  }

  // ---- Endpoint retry

  /** The connection attempts end as the outcomes say, one after the other. */
  function ConnectAll(s: Sender, info: Option<InfoArray>, outcomes: seq<bool>): Sender
    decreases |outcomes|
  {
    if s.op != Connecting || outcomes == [] then s
    else ConnectAll(OnConnect(s, info, outcomes[0]), info, outcomes[1..])
  }

  /** The position of the first acceptance, or the length. */
  function FirstAccept(outcomes: seq<bool>): (k: nat)
    ensures k <= |outcomes| && (k < |outcomes| ==> outcomes[k])
    ensures forall i :: 0 <= i < k ==> !outcomes[i]
  {
    if outcomes == [] || outcomes[0] then 0 else 1 + FirstAccept(outcomes[1..])
  }

  lemma SomeAccepts(outcomes: seq<bool>)
    ensures FirstAccept(outcomes) < |outcomes| <==> true in outcomes
  {
    if FirstAccept(outcomes) < |outcomes| {
      assert outcomes[FirstAccept(outcomes)];
    }
  }

  /** The state once an endpoint accepted, or once the last has refused. */
  function Concluded(s: Sender, info: Option<InfoArray>, accepted: bool): Sender {
    if !accepted then s.(op := Idle, errors := s.errors + [ConnectError])
    else if info.None? then s.(op := Idle, overrun := true)
    else s.(op := Writing, headers := s.headers + 1, writes := s.writes + [info.value])
  }

  lemma {:induction false} RetryConcludes(s: Sender, info: Option<InfoArray>, outcomes: seq<bool>)
    requires s.op == Connecting && |outcomes| == |s.rest| + 1
    ensures var t := ConnectAll(s, info, outcomes);
      t == Concluded(s.(attempts := t.attempts, rest := t.rest), info, FirstAccept(outcomes) < |outcomes|)
    decreases |outcomes|
  {
    var s' := OnConnect(s, info, outcomes[0]);
    if outcomes[0] {
      assert ConnectAll(s', info, outcomes[1..]) == s' && FirstAccept(outcomes) == 0;
    } else if s.rest == [] {
      assert ConnectAll(s', info, outcomes[1..]) == s' && FirstAccept(outcomes) == 1;
    } else {
      RetryConcludes(s', info, outcomes[1..]);
    }
  }

  lemma {:induction false} RetryKeepsOrder(s: Sender, info: Option<InfoArray>, outcomes: seq<bool>)
    requires s.op == Connecting && |outcomes| == |s.rest| + 1
    ensures var t := ConnectAll(s, info, outcomes);
      && t.attempts + t.rest == s.attempts + s.rest
      && |t.attempts| == |s.attempts| + Min(FirstAccept(outcomes), |s.rest|)
    decreases |outcomes|
  {
    var s' := OnConnect(s, info, outcomes[0]);
    if outcomes[0] || s.rest == [] {
      assert ConnectAll(s', info, outcomes[1..]) == s';
    } else {
      AppendAssociative(s.attempts, [s.rest[0]], s.rest[1..]);
      assert s.rest == [s.rest[0]] + s.rest[1..];
      RetryKeepsOrder(s', info, outcomes[1..]);
    }
  }

  /** The endpoints are tried in order, none twice, up to the first that accepts; the header is
      written exactly once, to that one, if it fits its array; and a connect error is reported
      exactly when all fail. */
  lemma RetryTriesAPrefix(content: seq<byte>, endpoints: seq<Endpoint>, info: Option<InfoArray>, outcomes: seq<bool>)
    requires endpoints != [] && |outcomes| == |endpoints|
    ensures var t, k := ConnectAll(OnResolve(NewSender(content), Some(endpoints)), info, outcomes), FirstAccept(outcomes);
      && t.attempts == endpoints[..Min(k + 1, |endpoints|)]
      && (t.errors == [ConnectError] <==> forall i :: 0 <= i < |endpoints| ==> !outcomes[i])
      && (t.overrun <==> k < |endpoints| && info.None?)
      && (t.op == Writing <==> k < |endpoints| && info.Some?)
      && t.headers == |t.writes| == (if t.op == Writing then 1 else 0)
      && (t.op == Writing ==> ReadyToSend(content, info.value, t))
      && (t.op != Writing ==> t.op == Idle && !t.shutdown && Endings(t) == 1)
  {
    var s, k := OnResolve(NewSender(content), Some(endpoints)), FirstAccept(outcomes);
    RetryConcludes(s, info, outcomes);
    RetryKeepsOrder(s, info, outcomes);
    var t := ConnectAll(s, info, outcomes);
    assert t.attempts + t.rest == endpoints;
    assert t.attempts == endpoints[..|t.attempts|];
  }

  // ---- Sending

  /** The writes complete as the results say, one after the other. */
  function SendAll(s: Sender, results: seq<WriteError>): Sender
    decreases |results|
  {
    if s.op != Writing || results == [] then s else SendAll(OnWritten(s, results[0]), results[1..])
  }

  /** What was written after the header and what is still unread are the blocks of the file. */
  ghost predicate Sending(content: seq<byte>, block: seq<byte>, s: Sender) {
    && s.writes + Blocks(s.unread, BUFSIZ) == [block] + Blocks(content, BUFSIZ)
    && s.filesize + |s.unread| == |content| && |s.writes| > 0
    && (s.shutdown ==> s.op == Idle && s.unread == [])
    && s.op in {Writing, Idle} && Endings(s) == if s.op == Idle then 1 else 0
  }

  lemma {:induction false} SendAllKeeps(content: seq<byte>, block: seq<byte>, s: Sender, results: seq<WriteError>)
    requires Sending(content, block, s)
    ensures Sending(content, block, SendAll(s, results))
    decreases |results|
  {
    if s.op == Writing && results != [] {
      var s' := OnWritten(s, results[0]);
      if s'.unread != s.unread {
        assert Blocks(s.unread, BUFSIZ) == [Take(s.unread, BUFSIZ)] + Blocks(s'.unread, BUFSIZ);
        AppendAssociative(s.writes, [Take(s.unread, BUFSIZ)], Blocks(s'.unread, BUFSIZ));
      }
      SendAllKeeps(content, block, s', results[1..]);
    }
  }

  /** Whatever completions the sender sees, the bytes it has written are a prefix of header and
      content, and all of them once it has shut its end down. */
  lemma WrittenIsAPrefix(content: seq<byte>, block: seq<byte>, s: Sender, results: seq<WriteError>)
    requires ReadyToSend(content, block, s)
    ensures var t := SendAll(s, results);
      && Flatten(t.writes) <= block + content
      && |Flatten(t.writes)| == |block| + t.filesize
      && (t.shutdown ==> Flatten(t.writes) == block + content && t.writes == [block] + Blocks(content, BUFSIZ))
      && Endings(t) == (if t.op == Idle then 1 else 0)
  {
    SendAllKeeps(content, block, s, results);
    var t := SendAll(s, results);
    FlattenAppend(t.writes, Blocks(t.unread, BUFSIZ));
    FlattenAppend([block], Blocks(content, BUFSIZ));
    assert Flatten([block]) == block;
    BlocksCutTheStream(t.unread, BUFSIZ);
    BlocksCutTheStream(content, BUFSIZ);
  }

  /** If every write succeeds the chain of callbacks ends after one per block and one more, with
      the whole file sent and the sending side shut. */
  lemma {:induction false} SendTerminates(s: Sender, results: seq<WriteError>)
    requires s.op == Writing && forall i :: 0 <= i < |results| ==> results[i] == NoError
    ensures SendAll(s, results).op == Idle <==> |results| > |Blocks(s.unread, BUFSIZ)|
    ensures SendAll(s, results).op == Idle ==>
      SendAll(s, results).shutdown && SendAll(s, results).filesize == s.filesize + |s.unread|
    decreases |results|
  {
    if results != [] {
      var s' := OnWritten(s, results[0]);
      if s.unread == [] {
        assert SendAll(s', results[1..]) == s';
      } else {
        assert Take(s.unread, BUFSIZ) != [];
        SendTerminates(s', results[1..]);
      }
    }
  }

  /** If the write after the first j blocks fails, exactly those blocks were written, and the
      connection is closed on an end of file and the error reported otherwise. */
  lemma {:induction false} SendFails(s: Sender, results: seq<WriteError>, j: nat)
    requires s.op == Writing && j < |results| && j <= |Blocks(s.unread, BUFSIZ)|
    requires results[j] != NoError && forall i :: 0 <= i < j ==> results[i] == NoError
    ensures var t := SendAll(s, results);
      && t.op == Idle && t.shutdown == s.shutdown
      && t.writes == s.writes + Blocks(s.unread, BUFSIZ)[..j]
      && t.closed == (s.closed || results[j] == EofError)
      && t.errors == s.errors + (if results[j] == OtherError then [SendError] else [])
    decreases j
  {
    var s' := OnWritten(s, results[0]);
    if j == 0 {
      assert SendAll(s', results[1..]) == s';
    } else {
      var block, rest := Take(s.unread, BUFSIZ), Blocks(Drop(s.unread, BUFSIZ), BUFSIZ);
      assert block != [] && Blocks(s.unread, BUFSIZ) == [block] + rest;
      SendFails(s', results[1..], j - 1);
      assert ([block] + rest)[..j] == [block] + rest[..j - 1];
      AppendAssociative(s.writes, [block], rest[..j - 1]);
    }
  }

  /** Sending leaves alone what concerns the connecting, and can only add a send error. */
  lemma {:induction false} SendAllFrame(s: Sender, results: seq<WriteError>)
    ensures var t := SendAll(s, results);
      && t.attempts == s.attempts && t.rest == s.rest && t.headers == s.headers && t.overrun == s.overrun
      && s.writes <= t.writes && (t.errors == s.errors || t.errors == s.errors + [SendError])
      && (s.op != Writing ==> t == s)
    decreases |results|
  {
    if s.op == Writing && results != [] {
      var s' := OnWritten(s, results[0]);
      SendAllFrame(s', results[1..]);
      assert s'.op != Writing ==> SendAll(s', results[1..]) == s';
    }
  }

  // ---- A whole run

  /** From the resolver's answer over the connection attempts to the last write. */
  function ClientRun(content: seq<byte>, found: Option<seq<Endpoint>>, info: Option<InfoArray>,
                     outcomes: seq<bool>, results: seq<WriteError>): Sender
    requires found.Some? ==> found.value != []
  {
    SendAll(ConnectAll(OnResolve(NewSender(content), found), info, outcomes), results)
  }

  /** In every run the client ends in exactly one of its ways: a resolve error before any attempt,
      a connect error after all of them, an overrun for a name that does not fit, or one of those
      of sending. It writes nothing, or a prefix of header and content; and once it has shut its
      end down, all of it, with filesize_ the length of the file. */
  lemma EveryClientRun(content: seq<byte>, found: Option<seq<Endpoint>>, info: Option<InfoArray>,
                       outcomes: seq<bool>, results: seq<WriteError>)
    requires found.Some? ==> found.value != [] && |outcomes| == |found.value|
    ensures var t := ClientRun(content, found, info, outcomes, results);
      && Endings(t) == (if t.op == Idle then 1 else 0)
      && (t.writes != [] ==> info.Some? && Flatten(t.writes) <= info.value + content)
      && (t.shutdown ==>
            && found.Some? && info.Some? && true in outcomes
            && Flatten(t.writes) == info.value + content && t.filesize == |content|)
      && (found.None? ==> t.op == Idle && t.errors == [ResolveError] && t.attempts == [] && t.writes == [])
      && (found.Some? && true !in outcomes ==> t.op == Idle && t.errors == [ConnectError] && t.attempts == found.value && t.writes == [])
      && (found.Some? && true in outcomes && info.None? ==> t.op == Idle && t.overrun && t.errors == [] && t.writes == [])
      && (found.Some? && true in outcomes && info.Some? ==>
            !t.overrun && [info.value] <= t.writes && (t.errors == [] || t.errors == [SendError]))
  {
    var s := ConnectAll(OnResolve(NewSender(content), found), info, outcomes);
    SendAllFrame(s, results);
    if found.Some? {
      RetryTriesAPrefix(content, found.value, info, outcomes);
      SomeAccepts(outcomes);
      if s.op == Writing {
        WrittenIsAPrefix(content, info.value, s, results);
      }
    }
  }

  // ---- The class

  class AsyncTcpClient {
    const filename: seq<byte>
    const garbage: InfoArray        // what lies where the header array is put
    const fp: InputFile
    const buf: array<byte>
    var op: Op
    var attempts: seq<Endpoint>
    var rest: seq<Endpoint>
    var headers: nat
    var filesize: nat
    var writes: seq<seq<byte>>
    var shutdown: bool
    var closed: bool
    var errors: seq<Failure>
    var overrun: bool

    ghost predicate Valid()
      reads this, fp
    {
      fp.Valid() && buf.Length == BUFSIZ && |filename| < TWO_TO_THE_64
    }

    function View(): Sender
      requires fp.pos <= |fp.content|
      reads this, fp
    {
      Sender(op, attempts, rest, headers, fp.content[fp.pos..], filesize, writes, shutdown, closed, errors, overrun)
    }

    constructor (path: seq<byte>, content: seq<byte>, garbage: InfoArray)
      requires |path| < TWO_TO_THE_64
      ensures Valid() && View() == NewSender(content)
      ensures filename == path && this.garbage == garbage && fresh(fp) && fresh(buf)
    {
      filename, this.garbage := path, garbage;
      fp := new InputFile(content);
      buf := new byte[BUFSIZ];
      op, attempts, rest, headers, filesize, writes := Resolving, [], [], 0, 0, [];
      shutdown, closed, errors, overrun := false, false, [], false;
    }

    method HandleResolve(found: Option<seq<Endpoint>>)
      requires Valid() && (found.Some? ==> found.value != [])
      modifies this
      ensures Valid() && View() == OnResolve(old(View()), found)
    {
      match found {
        case Some(endpoints) =>
          attempts, rest, op := [endpoints[0]], endpoints[1..], Connecting;
        case None =>
          errors, op := errors + [ResolveError], Idle;
      }
    }

    method HandleConnect(accepted: bool)
      requires Valid()
      modifies this
      ensures Valid() && View() == OnConnect(old(View()), InfoBlock(Basename(filename), garbage), accepted)
    {
      if accepted {
        SendInfo();
      } else if rest != [] {
        attempts, rest := attempts + [rest[0]], rest[1..];
      } else {
        errors, op := errors + [ConnectError], Idle;
      }
    }

    /** The accepted branch of handle_connect. */
    method SendInfo()
      requires Valid()
      modifies this
      ensures Valid() && View() == OnConnect(old(View()), InfoBlock(Basename(filename), garbage), true)
    {
      var info := new byte[MAX_FILENAME_LEN](i requires 0 <= i < MAX_FILENAME_LEN => garbage[i]);
      assert info[..] == garbage;
      BasenameFits(filename);
      var outside := EncodeFileinfo(info, Basename(filename));
      if outside {
        overrun, op := true, Idle;
      } else {
        writes, headers, op := writes + [info[..]], headers + 1, Writing;
      }
    }

    method HandleReadFile(err: WriteError)
      requires Valid()
      modifies this, fp, buf
      ensures Valid() && View() == OnWritten(old(View()), err)
    {
      if err == NoError {
        ghost var unread := fp.content[fp.pos..];
        var n := fp.Fread(buf, BUFSIZ);
        assert buf[..n] == Take(unread, BUFSIZ) && fp.content[fp.pos..] == Drop(unread, BUFSIZ);
        if n > 0 {
          filesize := filesize + n;
          writes := writes + [buf[..n]];
        } else {
          shutdown, op := true, Idle;
        }
      } else if err == EofError {
        closed, op := true, Idle;
      } else {
        errors, op := errors + [SendError], Idle;
      }
    }
  }
}
