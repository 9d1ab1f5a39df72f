/** c/file_serv.c: the server's callbacks over its static state and a connection's buffers. */
module CServer {
  import opened Bytes
  import opened CLib
  import opened CFileInfo
  import opened CInterface
  import opened StreamingDigest
  import opened Stdio
  import opened CProtocol

  class FileServer {
    const md5: Md5
    const room: nat
    const input: Evbuffer          // the connection's input evbuffer
    var output: seq<RequestType>   // status words written to the connection
    var status: RequestType
    var finfo: FileInfo
    var disk: Disk
    var log: seq<Complaint>
    var writes: nat
    var fault: bool

    function View(): Server
      reads this, input
    {
      Server(status, finfo, input.data, disk, log, writes, fault)
    }

    constructor (md5: Md5, room: nat, disk: Disk)
      ensures View() == Server(INIT, ZERO_FILEINFO, [], disk, [], 0, false)
      ensures this.md5 == md5 && this.room == room && output == [] && fresh(input)
    {
      this.md5, this.room, this.disk := md5, room, disk;
      input := new Evbuffer();
      output, status, finfo, log, writes, fault := [], INIT, ZERO_FILEINFO, [], 0, false;
    }

    method ListenCb()
      modifies this, input
      ensures View() == Listen(old(View())).0 && output == Listen(old(View())).1
    {
      input.data, output, writes := [], [], 0;
      status := HEAD;
      output := output + [status];
    }

    method ReadCb()
      modifies this, input
      ensures View() == ServerRead(md5, room, old(View())).0
      ensures output == old(output) + ServerRead(md5, room, old(View())).1
    {
      if status == HEAD {
        ReadHeader();
      } else if status == DATA {
        if |input.data| == finfo.size {
          var fp := new OutputFile(room);
          var result, complaints := WriteFile(md5, finfo, input, fp);
          disk := disk[Basename(CStr(finfo.name)) := fp.content];
          log, writes := log + complaints, writes + 1;
          if result != 0 {
            status := DATA;
          } else {
            status := FIN;
          }
          output := output + [status];
        }
      }
    }

    /** The HEAD branch of read_cb. */
    method ReadHeader()
      requires status == HEAD
      modifies this, input
      ensures View() == ServerRead(md5, room, old(View())).0
      ensures output == old(output) + ServerRead(md5, room, old(View())).1
    {
      var data := new byte[BUFSIZ];
      ghost var all := input.data;
      var n := input.Remove(data, BUFSIZ);
      assert data[..n] == Take(all, BUFSIZ) && input.data == Drop(all, BUFSIZ);
      var overrun;
      finfo, overrun := Decode(ZERO_FILEINFO, data, n);
      if overrun {
        fault := true;
      } else {
        status := DATA;
        output := output + [status];
      }
    }
  }
}
