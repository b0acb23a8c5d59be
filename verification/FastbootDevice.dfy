/** The gadget driver at work: rx_handler_command(), rx_handler_dl_image() and cb_download()
    of drivers/usb/gadget/f_fastboot.c, on the endpoint buffer and the image memory in place. */
module FastbootDevice {
  import opened Basics
  import opened Fastboot

  class Device {
    const cfg: Config
    const ep: array<char>      // req->buf
    const image: array<char>   // CONFIG_FASTBOOT_BUF_ADDR
    var receiving: bool        // req->complete is rx_handler_dl_image
    var size: nat              // download_size
    var bytes: nat             // download_bytes
    var length: nat            // req->length

    constructor (cfg: Config)
      requires cfg.Ok()
      ensures Valid() && this.cfg == cfg && !receiving && bytes == 0 && fresh(ep) && fresh(image)
    {
      this.cfg := cfg;
      ep := new char[EP_BUFFER_SIZE](_ => NUL);
      image := new char[cfg.bufSize](_ => NUL);
      receiving, size, bytes, length := false, 0, 0, EP_BUFFER_SIZE;
    }

    ghost predicate Valid()
      reads this, ep, image
    {
      ep != image && State().Ok(cfg)
    }

    ghost function State(): Dev
      reads this, ep, image
    {
      Dev(receiving, size, bytes, image[..], ep[..], length)
    }

    // The controller puts a packet into the endpoint buffer.
    method Transfer(packet: string)
      requires ep.Length == EP_BUFFER_SIZE && |packet| <= EP_BUFFER_SIZE
      modifies ep
      ensures ep[..] == Received(old(ep[..]), packet)
    {
      forall i | 0 <= i < |packet| { ep[i] := packet[i]; }
    }

    // The search through cmd_dispatch_info
    method Dispatch() returns (cmd: Option<Cmd>)
      requires Valid()
      ensures cmd == Find(ep[..])
    {
      var i := 0;
      while i < |TABLE|
        invariant 0 <= i <= |TABLE| && FindFrom(ep[..], 0) == FindFrom(ep[..], i)
      {
        var name := TABLE[i].0;
        if |name| <= ep.Length && ep[..|name|] == name {
          assert ep[..][..|name|] == ep[..|name|];
          return Some(TABLE[i].1);
        }
        assert |name| <= ep.Length ==> ep[..][..|name|] == ep[..|name|];
        i := i + 1;
      }
      cmd := None;
    }

    // strsep(&cmd, ":") on the endpoint buffer: the argument, and the colon overwritten.
    method Strsep() returns (arg: Option<string>)
      requires Valid()
      modifies ep
      ensures Valid() && State() == old(State()).(ep := Separated(old(ep[..])))
      ensures arg == AfterColon(CString(old(ep[..])))
    {
      ghost var buf := ep[..];
      var i := 0;
      while i < ep.Length && ep[i] != NUL && ep[i] != ':'
        invariant 0 <= i <= ep.Length && ep[..] == buf
        invariant forall j :: 0 <= j < i ==> buf[j] != NUL && buf[j] != ':'
      {
        i := i + 1;
      }
      FirstColon(buf, i);
      if i == ep.Length || ep[i] == NUL { return None; }
      arg := Some(CString(ep[i + 1..]));
      ep[i] := NUL;
      assert ep[..] == buf[i := NUL];
    }

    // cb_download()
    method CbDownload() returns (response: Option<Response>)
      requires Valid() && !receiving
      modifies this, ep
      ensures Answers(old(State()), Download, response)
    {
      ghost var s := State();
      var arg := Strsep();
      if arg == None { return None; }
      size := ParseHex(arg.value);
      bytes := 0;
      if size == 0 {
        response := Some(Fail(InvalidSize));
      } else if cfg.bufSize < size {
        size := 0;
        response := Some(Fail(TooLarge));
      } else {
        response := Some(Fastboot.Data(size));
        receiving := true;
        length := Request(size, 0, cfg.maxPacket);
      }
    }

    // cb_getvar()
    method CbGetvar() returns (response: Response)
      requires Valid() && !receiving
      modifies this, ep
      ensures Answers(old(State()), Getvar, Some(response))
    {
      var arg := Strsep();
      if arg == None { return Fail(MissingVar); }
      var name := arg.value;
      if StartsWith(name, "version") {
        response := Okay("0.4");
      } else if StartsWith(name, "bootloader-version") {
        response := Okay(cfg.version);
      } else if StartsWith(name, "downloadsize") || StartsWith(name, "max-download-size") {
        response := Okay("0x" + Hex(cfg.bufSize, 8));
      } else if StartsWith(name, "serialno") {
        response := if cfg.serial != None then Okay(cfg.serial.value) else Fail(NoValue);
      } else {
        response := Fail(UnknownVar);
      }
    }

    // cb_flash() and cb_erase()
    method CbFlash() returns (response: Response)
      requires Valid() && !receiving
      modifies this, ep
      ensures Answers(old(State()), Flash, Some(response))
    {
      ghost var s := State();
      var arg := Strsep();
      if arg == None { return Fail(MissingPartition); }
      assert image[..bytes] == s.Image();
      response := Result(cfg.flash(arg.value, image[..bytes]));
    }

    method CbErase() returns (response: Response)
      requires Valid() && !receiving
      modifies this, ep
      ensures Answers(old(State()), Erase, Some(response))
    {
      var arg := Strsep();
      if arg == None { return Fail(MissingPartition); }
      response := Result(cfg.erase(arg.value));
    }

    // cb_reboot(), cb_boot(), cb_continue() and cb_oem()
    method CbPlain(cmd: Cmd) returns (response: Response)
      requires Valid() && !receiving && (cmd == Reboot || cmd == Boot || cmd == Continue || cmd == Oem)
      ensures Answers(State(), cmd, Some(response))
    {
      response := Okay("");
      if cmd == Reboot {
        if IsRebootBootloader(CString(ep[..])) && !cfg.rebootFlag { response := Fail(NoRebootFlag); }
      } else if cmd == Oem {
        assert ep[..][4..] == ep[4..];
        var what := CString(ep[4..]);
        if StartsWith(what, "format") {
          if !cfg.formatOk { response := Fail(Given("")); }
        } else if what == "unlock" {
          response := Fail(NotImplemented);
        } else {
          response := Fail(UnknownOem);
        }
      }
    }

    // The state now and the response are what the callback gives from state `s`.
    ghost predicate Answers(s: Dev, cmd: Cmd, response: Option<Response>)
      requires s.Ok(cfg)
      reads this, ep, image
    {
      if response == None then Answer(cfg, s, cmd) == None
      else Valid() && Answer(cfg, s, cmd) == Some((State(), response.value))
    }

    method Callback(cmd: Cmd) returns (response: Option<Response>)
      requires Valid() && !receiving
      modifies this, ep
      ensures Answers(old(State()), cmd, response)
    {
      match cmd
      case Download => response := CbDownload();
      case Getvar => var r := CbGetvar(); response := Some(r);
      case Flash => var r := CbFlash(); response := Some(r);
      case Erase => var r := CbErase(); response := Some(r);
      case _ => var r := CbPlain(cmd); response := Some(r);
    }

    /** A packet in the command phase; no response means that the device is lost. */
    method RxCommand(packet: string) returns (response: Option<Response>)
      requires Valid() && !receiving && |packet| <= length
      modifies this, ep
      ensures response == None <==> Command(cfg, old(State()), packet) == None
      ensures response != None ==>
                Valid() && Command(cfg, old(State()), packet) == Some((State(), response.value))
    {
      ghost var s := State();
      Transfer(packet);
      var cmd := Dispatch();
      if cmd == None {
        response := Some(Fail(UnknownCommand));
      } else if |packet| < length {
        ep[|packet|] := NUL;
        assert ep[..] == Received(s.ep, packet)[|packet| := NUL];
        response := Callback(cmd.value);
        if response == None { return; }
      } else {
        response := Some(Fail(Overflow));
      }
      ep[0] := NUL;
    }

    // memcpy() to the image memory
    method Store(bytes: string)
      requires this.bytes + |bytes| <= image.Length
      modifies image
      ensures image[..] == old(image[..])[..this.bytes] + bytes + old(image[..])[this.bytes + |bytes|..]
    {
      forall i | 0 <= i < |bytes| { image[this.bytes + i] := bytes[i]; }
    }

    // memcpy() of the packet's bytes, up to the announced length
    method Take(packet: string) returns (t: nat)
      requires Valid() && receiving && |packet| <= length
      modifies ep, image
      ensures t == (if |packet| < size - bytes then |packet| else size - bytes)
      ensures image[..] == old(image[..])[..bytes] + packet[..t] + old(image[..])[bytes + t..]
      ensures ep[..] == Received(old(ep[..]), packet)
    {
      t := if |packet| < size - bytes then |packet| else size - bytes;
      Store(packet[..t]);
      Transfer(packet);
    }

    /** A packet in the data phase. */
    method RxData(packet: string) returns (response: Option<string>)
      requires Valid() && receiving && |packet| <= length
      modifies this, ep, image
      ensures Valid() && (State(), response) == DataPacket(cfg, old(State()), packet)
    {
      DataStep(cfg, State(), packet);
      var t := Take(packet);
      bytes := bytes + t;
      if size <= bytes {
        size := 0;
        receiving := false;
        length := EP_BUFFER_SIZE;
        response := Some("OKAY");
      } else {
        length := Request(size, bytes, cfg.maxPacket);
        response := None;
      }
    }
  }

  // Where a scan for the end of the text or a colon stops, and what is behind it.
  lemma FirstColon(buf: string, i: nat)
    requires i <= |buf| && (forall j :: 0 <= j < i ==> buf[j] != NUL && buf[j] != ':')
    requires i < |buf| ==> buf[i] == NUL || buf[i] == ':'
    ensures var text := CString(buf);
            if i < |buf| && buf[i] == ':'
            then ColonAt(text) == i < |text| && text[i + 1..] == CString(buf[i + 1..])
            else ColonAt(text) == |text|
  {
    var n := Place(buf, NUL, 0);
    var text := CString(buf);
    if i < |buf| && buf[i] == ':' {
      assert i < n;
      PlaceIs(text, ':', i);
      CStringIs(buf[i + 1..], n - (i + 1));
      assert buf[i + 1..][..n - (i + 1)] == text[i + 1..];
    } else {
      PlaceIs(buf, NUL, i);
      PlaceIs(text, ':', |text|);
    }
  }
}
