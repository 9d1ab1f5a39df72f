/** c/file_client.c: the client's callbacks over its global status and buffer. */
module CClient {
  import opened Bytes
  import opened CLib
  import opened CFileInfo
  import opened CInterface
  import opened Stdio
  import opened CProtocol

  class FileClient {
    const env: Env
    var status: RequestType
    var buf: Evbuffer?
    var freed: bool
    var enabled: bool
    var fault: bool
    var output: seq<byte>   // bytes written to the connection

    function View(): Client
      reads this, buf
    {
      Client(status, if freed then Freed else if buf == null then Unset else Live(buf.data), enabled, fault)
    }

    constructor (env: Env)
      ensures View() == NEW_CLIENT && this.env == env && output == [] && buf == null
    {
      this.env := env;
      status, buf, freed, enabled, fault, output := INIT, null, false, true, false, [];
    }

    method ReadCb(word: RequestType)
      modifies this, buf
      ensures View() == ClientRead(env, old(View()), word).0
      ensures output == old(output) + ClientRead(env, old(View()), word).1
    {
      status := word;
      if status == FIN {
        if freed || buf == null {
          fault := true;
          return;
        }
        freed := true;
        status := INIT;
        enabled := false;
      }
      WriteCb();
    }

    method WriteCb()
      modifies this, buf
      ensures View() == ClientWrite(env, old(View())).0
      ensures output == old(output) + ClientWrite(env, old(View())).1
    {
      if status == HEAD {
        SendHeader();
      } else if status == DATA {
        if freed || buf == null {
          fault := true;
        } else {
          output := output + buf.data;
          buf.data := [];
        }
      }
    }

    /** The HEAD branch of write_cb. */
    method SendHeader()
      requires status == HEAD
      modifies this
      ensures View() == ClientWrite(env, old(View())).0
      ensures output == old(output) + ClientWrite(env, old(View())).1
    {
      var buffer := new Evbuffer();
      buf, freed := buffer, false;
      var finfo := FileInfo(StrCpy(env.garbage, env.infile), 0, Zeros(16));
      var fp := new InputFile(env.source);
      finfo := ReadFile(env.md5, finfo, fp, buffer);
      assert buffer.data == env.source;
      finfo := finfo.(name := StrCpy(finfo.name, env.outfile));
      var data := new byte[SIZEOF_FILEINFO];
      var n := Encode(data, finfo);
      output := output + data[..n];
    }
  }
}
