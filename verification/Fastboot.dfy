/** The device side of the fastboot protocol, version 0.4: drivers/usb/gadget/f_fastboot.c
    against doc/README.android-fastboot-protocol. */
module Fastboot {
  import opened Basics

  const U32: nat := 0x1_0000_0000
  const EP_BUFFER_SIZE: nat := 4096
  const RESPONSE_MAX: nat := 64

  // ------------------------------------------------------------------ text

  predicate IsHex(c: char) { '0' <= c <= '9' || 'a' <= c <= 'f' || 'A' <= c <= 'F' }

  function HexValue(c: char): (v: nat)
    requires IsHex(c)
    ensures v < 16
  {
    if '0' <= c <= '9' then c as int - '0' as int
    else if 'a' <= c <= 'f' then c as int - 'a' as int + 10
    else c as int - 'A' as int + 10
  }

  // The digits up to the first character that is none, after `acc`.
  function Digits(s: string, acc: nat): nat
    decreases |s|
  {
    if s == "" || !IsHex(s[0]) then acc else Digits(s[1..], 16 * acc + HexValue(s[0]))
  }

  // simple_strtoul(s, NULL, 16), kept in an unsigned int
  function ParseHex(s: string): nat {
    var t := if 3 <= |s| && s[0] == '0' && s[1] == 'x' && IsHex(s[2]) then s[2..] else s;
    Digits(t, 0) % U32
  }

  function HexDigit(v: nat): (c: char)
    requires v < 16
    ensures IsHex(c) && HexValue(c) == v && c != 'x'
  {
    "0123456789abcdef"[v]
  }

  // %0<k>x
  function Hex(n: nat, k: nat): (s: string)
    ensures |s| == k && forall i :: 0 <= i < k ==> IsHex(s[i]) && s[i] != 'x'
  {
    if k == 0 then "" else Hex(n / 16, k - 1) + [HexDigit(n % 16)]
  }

  function Pow16(k: nat): (p: nat)
    ensures 0 < p
  {
    if k == 0 then 1 else 16 * Pow16(k - 1)
  }

  lemma {:induction false} DigitsConcat(s: string, c: char, acc: nat)
    requires IsHex(c) && forall i :: 0 <= i < |s| ==> IsHex(s[i])
    ensures Digits(s + [c], acc) == 16 * Digits(s, acc) + HexValue(c)
    decreases |s|
  {
    if s == "" {
      assert (s + [c])[1..] == "";
    } else {
      assert (s + [c])[1..] == s[1..] + [c];
      DigitsConcat(s[1..], c, 16 * acc + HexValue(s[0]));
    }
  }

  lemma {:induction false} DigitsOfHex(n: nat, k: nat)
    requires n < Pow16(k)
    ensures Digits(Hex(n, k), 0) == n
    decreases k
  {
    if k != 0 {
      DigitsOfHex(n / 16, k - 1);
      DigitsConcat(Hex(n / 16, k - 1), HexDigit(n % 16), 0);
    }
  }

  lemma ParseOfHex(n: nat, k: nat)
    requires n < Pow16(k) && n < U32
    ensures ParseHex(Hex(n, k)) == n
  {
    DigitsOfHex(n, k);
    var s := Hex(n, k);
    assert 2 <= |s| ==> s[1] != 'x';
    ParsePlain(s);
  }

  lemma ParsePlain(s: string)
    requires 2 <= |s| ==> s[1] != 'x'
    ensures Digits(s, 0) < U32 ==> ParseHex(s) == Digits(s, 0)
  {
  }

  /** A size in the form of the protocol, eight hexadecimal digits, is read as that size. */
  lemma HexRoundTrip(n: nat)
    requires n < U32
    ensures ParseHex(Hex(n, 8)) == n
  {
    ParseOfHex(n, 8);
  }

  // strncat(response, reason, 60)
  function Reply(tag: string, reason: string): (r: string)
    requires |tag| == 4
    ensures 4 <= |r| <= RESPONSE_MAX && r[..4] == tag
  {
    tag + (if |reason| <= RESPONSE_MAX - 4 then reason else reason[..RESPONSE_MAX - 4])
  }

  const NUL: char := 0 as char

  // The first place of `c` from `i` on, or the length.
  function Place(s: string, c: char, i: nat): (n: nat)
    requires i <= |s|
    ensures i <= n <= |s| && (forall j :: i <= j < n ==> s[j] != c) && (n < |s| ==> s[n] == c)
    decreases |s| - i
  {
    if i == |s| || s[i] == c then i else Place(s, c, i + 1)
  }

  lemma PlaceIs(s: string, c: char, n: nat)
    requires n <= |s| && (forall j :: 0 <= j < n ==> s[j] != c) && (n < |s| ==> s[n] == c)
    ensures Place(s, c, 0) == n
  {
    var m := Place(s, c, 0);
    assert m < |s| ==> s[m] == c;
  }

  // The buffer as a C string.
  function CString(s: string): (r: string)
    ensures |r| <= |s| && r == s[..|r|]
  {
    s[..Place(s, NUL, 0)]
  }

  lemma CStringIs(s: string, n: nat)
    requires n <= |s| && (forall i :: 0 <= i < n ==> s[i] != NUL) && (n < |s| ==> s[n] == NUL)
    ensures CString(s) == s[..n]
  {
    PlaceIs(s, NUL, n);
  }

  // strpbrk(s, ":"): where the first colon is, or the length.
  function ColonAt(s: string): (n: nat)
    ensures n <= |s|
  {
    Place(s, ':', 0)
  }

  // strsep(&cmd, ":"): what follows the first colon ...
  function AfterColon(s: string): Option<string> {
    var n := ColonAt(s);
    if n < |s| then Some(s[n + 1..]) else None
  }

  // ... which is overwritten in the buffer.
  function Separated(buf: string): (r: string)
    ensures |r| == |buf|
  {
    var text := CString(buf);
    var n := ColonAt(text);
    if n < |text| then buf[n := NUL] else buf
  }

  // ------------------------------------------------------------------ commands

  datatype Cmd = Reboot | Getvar | Download | Boot | Continue | Flash | Erase | Oem

  /** The dispatch table, in order. */
  const TABLE: seq<(string, Cmd)> := [
    ("reboot", Reboot), ("getvar:", Getvar), ("download:", Download), ("boot", Boot),
    ("continue", Continue), ("flash", Flash), ("erase", Erase), ("oem", Oem)
  ]

  predicate StartsWith(s: string, p: string) { |p| <= |s| && s[..|p|] == p }

  function FindFrom(s: string, i: nat): Option<Cmd>
    decreases |TABLE| - i
  {
    if |TABLE| <= i then None
    else if StartsWith(s, TABLE[i].0) then Some(TABLE[i].1)
    else FindFrom(s, i + 1)
  }

  /** The command that a text calls for. */
  function Find(s: string): Option<Cmd> { FindFrom(s, 0) }

  /** What the device is configured with and what its lower layers answer. */
  datatype Config = Config(
    bufSize: nat,             // CONFIG_FASTBOOT_BUF_SIZE
    maxPacket: nat,           // of the bulk endpoint in use
    version: string,          // U_BOOT_VERSION
    serial: Option<string>,
    rebootFlag: bool,         // fb_set_reboot_flag() works
    formatOk: bool,
    flash: (string, string) -> (bool, string),   // partition and image: success, reason
    erase: string -> (bool, string)
  ) {
    predicate Ok() {
      bufSize < U32 && (maxPacket == 64 || maxPacket == 512)
    }
  }

  /** The device: in the data phase or not, the announced and received number of bytes, the
      memory for the image, the endpoint buffer, and the length of the queued request. */
  datatype Dev = Dev(receiving: bool, size: nat, bytes: nat, image: string, ep: string, length: nat) {
    predicate Ok(cfg: Config) {
      && cfg.Ok() && |image| == cfg.bufSize && |ep| == EP_BUFFER_SIZE
      && bytes <= cfg.bufSize && size <= cfg.bufSize
      && 0 < length <= EP_BUFFER_SIZE
      && (if receiving then bytes < size else length == EP_BUFFER_SIZE)
    }

    /** What `flash` writes. */
    function Image(): string
      requires bytes <= |image|
    {
      image[..bytes]
    }
  }

  // A transfer into the endpoint buffer leaves the bytes behind it as they were.
  function Received(ep: string, packet: string): (r: string)
    requires |packet| <= |ep|
    ensures |r| == |ep|
  {
    packet + ep[|packet|..]
  }

  // n % maxPacket
  function Rest(n: nat, maxPacket: nat): nat
    requires maxPacket == 64 || maxPacket == 512
  {
    if maxPacket == 64 then n % 64 else n % 512
  }

  // rx_bytes_expected() and the minimum of one packet; the difference is taken as an int
  function Request(size: nat, bytes: nat, maxPacket: nat): (n: nat)
    requires bytes <= size < U32 && (maxPacket == 64 || maxPacket == 512)
    ensures maxPacket <= n <= EP_BUFFER_SIZE && Rest(n, maxPacket) == 0
    ensures n < size - bytes ==> n == EP_BUFFER_SIZE || U32 <= 2 * (size - bytes)
  {
    var remain := size - bytes;
    var expected :=
      if U32 / 2 <= remain then 0
      else if EP_BUFFER_SIZE < remain then EP_BUFFER_SIZE
      else if remain < maxPacket then maxPacket
      else if Rest(remain, maxPacket) != 0 then remain + (maxPacket - Rest(remain, maxPacket))
      else remain;
    if expected < maxPacket then maxPacket else expected
  }

  /** Why a command fails; the flash layer gives texts of its own. */
  datatype Reason =
    | NoRebootFlag | MissingVar | UnknownVar | NoValue | InvalidSize | TooLarge | MissingPartition
    | NotImplemented | UnknownOem | UnknownCommand | Overflow | Given(text: string)

  datatype Response = Okay(info: string) | Fail(reason: Reason) | Data(size: nat)

  function Message(r: Reason): string {
    match r
    case NoRebootFlag => "Cannot set reboot flag"
    case MissingVar => "missing var"
    case UnknownVar => "Variable not implemented"
    case NoValue => "Value not set"
    case InvalidSize => "data invalid size"
    case TooLarge => "data too large"
    case MissingPartition => "missing partition name"
    case NotImplemented => "not implemented"
    case UnknownOem => "unknown oem command"
    case UnknownCommand => "unknown command"
    case Overflow => "buffer overflow"
    case Given(text) => text
  }

  /** A response as it is sent. */
  function Wire(r: Response): string {
    match r
    case Okay(info) => Reply("OKAY", info)
    case Fail(reason) => Reply("FAIL", Message(reason))
    case Data(size) => Reply("DATA", Hex(size, 8))
  }

  function Result(r: (bool, string)): Response { if r.0 then Okay(r.1) else Fail(Given(r.1)) }

  // The callbacks, on a command in the endpoint buffer: None if the device is lost.
  function Answer(cfg: Config, s: Dev, cmd: Cmd): Option<(Dev, Response)>
    requires s.Ok(cfg)
  {
    var text := CString(s.ep);
    var arg := AfterColon(text);
    var sep := s.(ep := Separated(s.ep));
    match cmd
    case Reboot => Some((s, if IsRebootBootloader(text) && !cfg.rebootFlag then Fail(NoRebootFlag) else Okay("")))
    case Getvar => Some((sep, if arg == None then Fail(MissingVar) else GetVar(cfg, arg.value)))
    case Download =>
      if arg == None then None
      else
        var size := ParseHex(arg.value);
        if size == 0 then Some((sep.(size := 0, bytes := 0), Fail(InvalidSize)))
        else if cfg.bufSize < size then Some((sep.(size := 0, bytes := 0), Fail(TooLarge)))
        else Some((sep.(receiving := true, size := size, bytes := 0, length := Request(size, 0, cfg.maxPacket)),
                   Data(size)))
    case Boot => Some((s, Okay("")))
    case Continue => Some((s, Okay("")))
    case Flash => Some((sep, if arg == None then Fail(MissingPartition) else Result(cfg.flash(arg.value, s.Image()))))
    case Erase => Some((sep, if arg == None then Fail(MissingPartition) else Result(cfg.erase(arg.value))))
    case Oem => Some((s, OemReply(cfg, CString(s.ep[4..]))))   // whatever there is behind a text that is too short
  }

  predicate IsRebootBootloader(text: string) { StartsWith(text, "reboot-bootloader") }

  function OemReply(cfg: Config, what: string): Response {
    if StartsWith(what, "format") then (if cfg.formatOk then Okay("") else Fail(Given("")))
    else if what == "unlock" then Fail(NotImplemented)
    else Fail(UnknownOem)
  }

  function GetVar(cfg: Config, name: string): Response {
    if StartsWith(name, "version") then Okay("0.4")
    else if StartsWith(name, "bootloader-version") then Okay(cfg.version)
    else if StartsWith(name, "downloadsize") || StartsWith(name, "max-download-size")
    then Okay("0x" + Hex(cfg.bufSize, 8))
    else if StartsWith(name, "serialno") then (if cfg.serial == None then Fail(NoValue) else Okay(cfg.serial.value))
    else Fail(UnknownVar)
  }

  // rx_handler_command()
  function Command(cfg: Config, s: Dev, packet: string): Option<(Dev, Response)>
    requires s.Ok(cfg) && |packet| <= s.length
  {
    var s1 := s.(ep := Received(s.ep, packet));
    var cmd := Find(s1.ep);
    var r :=
      if cmd == None then Some((s1, Fail(UnknownCommand)))
      else if |packet| < s.length then Answer(cfg, s1.(ep := s1.ep[|packet| := NUL]), cmd.value)
      else Some((s1, Fail(Overflow)));
    if r == None then None
    else Some((r.value.0.(ep := r.value.0.ep[0 := NUL]), r.value.1))
  }

  // The text that the callbacks see is the packet up to a NUL in it.
  lemma Terminated(ep: string, packet: string)
    requires |packet| < |ep|
    ensures CString(Received(ep, packet)[|packet| := NUL]) == CString(packet)
  {
    var buf := Received(ep, packet)[|packet| := NUL];
    var n := |CString(packet)|;
    assert forall i :: 0 <= i < |packet| ==> buf[i] == packet[i];
    CStringIs(buf, n);
    assert buf[..n] == packet[..n];
  }

  // rx_handler_dl_image()
  function DataPacket(cfg: Config, s: Dev, packet: string): (Dev, Option<string>)
    requires s.Ok(cfg) && s.receiving && |packet| <= s.length
  {
    var t := if |packet| < s.size - s.bytes then |packet| else s.size - s.bytes;
    var s1 := s.(image := s.image[..s.bytes] + packet[..t] + s.image[s.bytes + t..],
                 bytes := s.bytes + t, ep := Received(s.ep, packet));
    if s1.size <= s1.bytes
    then (s1.(receiving := false, size := 0, length := EP_BUFFER_SIZE), Some("OKAY"))
    else (s1.(length := Request(s1.size, s1.bytes, cfg.maxPacket)), None)
  }

  // ------------------------------------------------------------------ one answer to each command

  predicate Tagged(r: string, tag: string) { 4 <= |r| && r[..4] == tag }

  /** A response as the protocol has it: short, and of one of the three kinds. */
  predicate Proper(r: string) {
    |r| <= RESPONSE_MAX && (Tagged(r, "OKAY") || Tagged(r, "FAIL") || Tagged(r, "DATA"))
  }

  /** Whatever the reason, a response is proper, and says DATA only for one. */
  lemma WireProper(r: Response)
    ensures Proper(Wire(r)) && (Tagged(Wire(r), "DATA") <==> r.Data?)
  {
    var tag := Wire(r)[..4];
    assert "OKAY"[0] != "DATA"[0] && "FAIL"[0] != "DATA"[0];
    match r
    case Okay(_) => assert tag == "OKAY";
    case Fail(_) => assert tag == "FAIL";
    case Data(_) => assert tag == "DATA";
  }

  lemma AnswerProper(cfg: Config, s: Dev, cmd: Cmd)
    requires s.Ok(cfg) && !s.receiving
    ensures Answer(cfg, s, cmd) == None <==> cmd == Download && AfterColon(CString(s.ep)) == None
    ensures var a := Answer(cfg, s, cmd);
            a != None ==>
              var (t, r) := a.value;
              t.Ok(cfg) && (if t.receiving then r == Data(t.size) && t.bytes == 0 else !r.Data?)
  {
  }

  lemma FoundDownload(t: string)
    ensures Find(t) == Some(Download) <==> StartsWith(t, "download:")
  {
    if StartsWith(t, "download:") {
      assert t[0] == "download:"[0] == 'd';
      assert t[1] == "download:"[1];
      NoOther(t, 0);
      NoOther(t, 1);
    }
    assert FindFrom(t, 8) == None;
    assert FindFrom(t, 7) == None || FindFrom(t, 7) == Some(Oem);
    assert FindFrom(t, 6) != Some(Download) && FindFrom(t, 5) != Some(Download);
    assert FindFrom(t, 4) != Some(Download) && FindFrom(t, 3) != Some(Download);
  }

  // An entry that starts with another letter does not match.
  lemma NoOther(t: string, i: nat)
    requires i < |TABLE| && t != "" && TABLE[i].0 != "" && t[0] != TABLE[i].0[0]
    ensures !StartsWith(t, TABLE[i].0)
  {
    if |TABLE[i].0| <= |t| { assert t[..|TABLE[i].0|][0] == t[0]; }
  }

  // What the endpoint buffer begins with after a transfer.
  lemma Spelled(ep: string, packet: string, w: string)
    requires |packet| <= |ep| && |w| <= |ep|
    ensures StartsWith(Received(ep, packet), w) <==>
            if |packet| < |w| then packet == w[..|packet|] && ep[|packet|..|w|] == w[|packet|..]
            else packet[..|w|] == w
  {
    var r := Received(ep, packet);
    assert forall i :: 0 <= i < |packet| ==> r[i] == packet[i];
    assert forall i :: |packet| <= i < |ep| ==> r[i] == ep[i];
    if |packet| < |w| {
      var n := |packet|;
      assert r[..|w|] == packet + ep[n..|w|];
      assert w == w[..n] + w[n..];
      if r[..|w|] == w {
        assert packet == r[..|w|][..n] && ep[n..|w|] == r[..|w|][n..];
      }
    } else {
      assert r[..|w|] == packet[..|w|];
    }
  }

  // The buffer begins with the word `w`, which ends in its only colon, and the packet has no colon.
  lemma OnlyBegun(ep: string, packet: string, w: string)
    requires |packet| <= |ep| && |w| <= |ep| && w != "" && w[|w| - 1] == ':'
    requires forall i :: 0 <= i < |w| ==> w[i] != NUL && (i < |w| - 1 ==> w[i] != ':')
    ensures StartsWith(Received(ep, packet), w) && AfterColon(CString(packet)) == None <==>
            |packet| < |w| && packet == w[..|packet|] && ep[|packet|..|w|] == w[|packet|..]
  {
    Spelled(ep, packet, w);
  }

  lemma CommandLost(cfg: Config, s: Dev, packet: string)
    requires s.Ok(cfg) && !s.receiving && |packet| <= s.length
    ensures Command(cfg, s, packet) == None <==>
            && |packet| < s.length && Find(Received(s.ep, packet)) == Some(Download)
            && AfterColon(CString(packet)) == None
  {
    var s1 := s.(ep := Received(s.ep, packet));
    if |packet| < s.length && Find(s1.ep) != None {
      Terminated(s.ep, packet);
      AnswerProper(cfg, s1.(ep := s1.ep[|packet| := NUL]), Find(s1.ep).value);
    }
  }

  /** The device is lost exactly when a packet that spells only the beginning of "download:"
      is completed by what an earlier transfer left in the endpoint buffer. */
  lemma LostIff(cfg: Config, s: Dev, packet: string)
    requires s.Ok(cfg) && !s.receiving && |packet| <= s.length
    ensures Command(cfg, s, packet) == None <==>
            && |packet| < 9 && packet == "download:"[..|packet|]
            && s.ep[|packet|..9] == "download:"[|packet|..]
  {
    CommandLost(cfg, s, packet);
    FoundDownload(Received(s.ep, packet));
    OnlyBegun(s.ep, packet, "download:");
  }

  // A text that no entry of the table begins like.
  lemma NotFound(t: string)
    requires t != "" && t[0] == 'X'
    ensures Find(t) == None
  {
    forall i | 0 <= i < |TABLE| ensures !StartsWith(t, TABLE[i].0) { NoOther(t, i); }
    assert FindFrom(t, 8) == None;
    assert FindFrom(t, 6) == None;
    assert FindFrom(t, 4) == None;
    assert FindFrom(t, 2) == None;
  }

  /** It happens: from every state, in two packets.  An unknown command leaves the rest of
      "download:" behind, and the next packet is its first letter. */
  lemma LostInTwo(cfg: Config, s: Dev)
    requires s.Ok(cfg) && !s.receiving
    ensures var r := Command(cfg, s, "Xownload:");
            && r != None && r.value.1 == Fail(UnknownCommand) && r.value.0.Ok(cfg) && !r.value.0.receiving
            && Command(cfg, r.value.0, "d") == None
  {
    var p := "Xownload:";
    var ep := Received(s.ep, p);
    assert ep[0] == 'X';
    NotFound(ep);
    var t := Command(cfg, s, p).value.0;
    assert forall i :: 1 <= i < 9 ==> t.ep[i] == p[i] == "download:"[i];
    assert t.ep[1..9] == "download:"[1..];
    LostIff(cfg, t, "d");
  }

  // ------------------------------------------------------------------ answered by the own text

  /** The packet is a proper beginning of entry `i` of the table, and what an earlier transfer
      left behind it is the rest. */
  predicate CompletedBy(ep: string, packet: string, i: nat)
    requires i < |TABLE| && |ep| == EP_BUFFER_SIZE
  {
    var w := TABLE[i].0;
    |packet| < |w| && packet == w[..|packet|] && ep[|packet|..|w|] == w[|packet|..]
  }

  predicate Completed(ep: string, packet: string)
    requires |ep| == EP_BUFFER_SIZE
  {
    exists i :: 0 <= i < |TABLE| && CompletedBy(ep, packet, i)
  }

  lemma StartsIff(ep: string, packet: string, i: nat)
    requires i < |TABLE| && |ep| == EP_BUFFER_SIZE && |packet| <= |ep|
    ensures StartsWith(Received(ep, packet), TABLE[i].0) <==>
            StartsWith(packet, TABLE[i].0) || CompletedBy(ep, packet, i)
  {
    Spelled(ep, packet, TABLE[i].0);
  }

  // No entry of the table begins like another one.
  lemma NoEntryInAnother(t: string, i: nat, j: nat)
    requires i < |TABLE| && j < |TABLE| && StartsWith(t, TABLE[i].0) && StartsWith(t, TABLE[j].0)
    ensures i == j
  {
    assert t[0] == t[..|TABLE[i].0|][0] == TABLE[i].0[0];
    assert t[0] == t[..|TABLE[j].0|][0] == TABLE[j].0[0];
    FirstLetters(i, j);
  }

  lemma FirstLetters(i: nat, j: nat)
    requires i < |TABLE| && j < |TABLE| && TABLE[i].0 != "" && TABLE[j].0 != "" && TABLE[i].0[0] == TABLE[j].0[0]
    ensures i == j
  {
  }

  lemma {:induction false} FindIs(t: string, i: nat, from: nat)
    requires from <= i < |TABLE| && StartsWith(t, TABLE[i].0)
    ensures FindFrom(t, from) == Some(TABLE[i].1)
    decreases i - from
  {
    if from < i {
      if StartsWith(t, TABLE[from].0) { NoEntryInAnother(t, i, from); }
      FindIs(t, i, from + 1);
    }
  }

  /** A command is dispatched by the text of its own packet exactly when that is not a beginning
      of a command that an earlier transfer completes. */
  lemma DispatchIff(ep: string, packet: string)
    requires |ep| == EP_BUFFER_SIZE && |packet| <= |ep|
    ensures Find(Received(ep, packet)) == Find(packet) <==> !Completed(ep, packet)
    ensures Completed(ep, packet) ==> Find(packet) == None
  {
    var r := Received(ep, packet);
    forall i | 0 <= i < |TABLE|
      ensures StartsWith(r, TABLE[i].0) <==> StartsWith(packet, TABLE[i].0) || CompletedBy(ep, packet, i)
    {
      StartsIff(ep, packet, i);
    }
    if Completed(ep, packet) {
      var i :| 0 <= i < |TABLE| && CompletedBy(ep, packet, i);
      FindIs(r, i, 0);
      forall j | 0 <= j < |TABLE| ensures !StartsWith(packet, TABLE[j].0) {
        if StartsWith(packet, TABLE[j].0) { NoEntryInAnother(r, i, j); }
      }
    } else if j :| 0 <= j < |TABLE| && StartsWith(packet, TABLE[j].0) {
      FindIs(packet, j, 0);
      FindIs(r, j, 0);
    } else {
    }
  }

  lemma FindEntry(t: string, c: Cmd)
    requires Find(t) == Some(c)
    ensures exists i :: 0 <= i < |TABLE| && TABLE[i].1 == c && StartsWith(t, TABLE[i].0)
  {
    if forall i :: 0 <= i < |TABLE| ==> !StartsWith(t, TABLE[i].0) {
    } else {
      var i :| 0 <= i < |TABLE| && StartsWith(t, TABLE[i].0);
      FindIs(t, i, 0);
    }
  }

  function Nuls(n: nat): (r: string)
    ensures |r| == n && forall i :: 0 <= i < n ==> r[i] == NUL
  {
    seq(n, _ => NUL)
  }

  // An endpoint buffer that nothing was put into.
  function Blank(): (r: string)
    ensures |r| == EP_BUFFER_SIZE && forall i :: 0 <= i < |r| ==> r[i] == NUL
  {
    Nuls(EP_BUFFER_SIZE)
  }

  // An answer without what it leaves in the endpoint buffer.
  function Plain(a: Option<(Dev, Response)>): Option<(Dev, Response)> {
    if a == None then None else Some((a.value.0.(ep := Blank()), a.value.1))
  }

  /** The packet is answered as it would be with nothing in the buffer: nothing that came before
      shows in the answer or in the rest of the state. */
  predicate OwnAnswer(cfg: Config, s: Dev, packet: string)
    requires s.Ok(cfg) && |packet| <= s.length
  {
    Plain(Command(cfg, s, packet)) == Plain(Command(cfg, s.(ep := Blank()), packet))
  }

  /** What cb_oem() would take for its argument behind a text without one. */
  predicate OemTail(ep: string)
    requires 4 <= |ep|
  {
    var what := CString(ep[4..]);
    StartsWith(what, "format") || what == "unlock"
  }

  lemma BlankCompletesNothing(packet: string)
    requires |packet| <= EP_BUFFER_SIZE
    ensures !Completed(Blank(), packet) && Find(Received(Blank(), packet)) == Find(packet)
  {
    forall i | 0 <= i < |TABLE| ensures !CompletedBy(Blank(), packet, i) {
      var w := TABLE[i].0;
      if |packet| < |w| {
        assert Blank()[|packet|..|w|][0] == NUL && w[|packet|..][0] != NUL;
      }
    }
    DispatchIff(Blank(), packet);
  }

  lemma NeverUnknown(cfg: Config, s: Dev, cmd: Cmd)
    requires s.Ok(cfg)
    ensures Answer(cfg, s, cmd) != None ==> Answer(cfg, s, cmd).value.1 != Fail(UnknownCommand)
  {
  }

  // The callbacks see the text in the buffer, and cb_oem() what is behind its fourth byte.
  lemma AnswerByText(cfg: Config, s: Dev, s': Dev, cmd: Cmd)
    requires s.Ok(cfg) && s'.Ok(cfg) && s.(ep := Blank()) == s'.(ep := Blank()) && CString(s.ep) == CString(s'.ep)
    ensures cmd != Oem ==> Plain(Answer(cfg, s, cmd)) == Plain(Answer(cfg, s', cmd))
    ensures cmd == Oem ==>
              (Plain(Answer(cfg, s, cmd)) == Plain(Answer(cfg, s', cmd)) <==>
               OemReply(cfg, CString(s.ep[4..])) == OemReply(cfg, CString(s'.ep[4..])))
  {
  }

  // The command with its packet terminated in the buffer.
  function Delivered(s: Dev, packet: string): Dev
    requires |packet| < |s.ep|
  {
    s.(ep := Received(s.ep, packet)[|packet| := NUL])
  }

  lemma ArgumentBehind(ep: string, packet: string)
    requires 4 <= |packet| < |ep|
    ensures CString(Received(ep, packet)[|packet| := NUL][4..]) == CString(packet[4..])
  {
    assert Received(ep, packet)[|packet| := NUL][4..] == Received(ep[4..], packet[4..])[|packet| - 4 := NUL];
    Terminated(ep[4..], packet[4..]);
  }

  lemma OemOwnIff(cfg: Config, ep: string, packet: string)
    requires |ep| == EP_BUFFER_SIZE && 3 <= |packet| < EP_BUFFER_SIZE && StartsWith(packet, "oem")
    ensures var a, b := Received(ep, packet)[|packet| := NUL], Received(Blank(), packet)[|packet| := NUL];
            OemReply(cfg, CString(a[4..])) == OemReply(cfg, CString(b[4..])) <==> !(packet == "oem" && OemTail(ep))
  {
    if |packet| == 3 {
      assert packet == "oem";
      var a, b := Received(ep, packet)[|packet| := NUL], Received(Blank(), packet)[|packet| := NUL];
      assert a[4..] == ep[4..] && b[4..] == Blank()[4..];
      CStringIs(Blank()[4..], 0);
      assert CString(Blank()[4..]) == "";
    } else {
      ArgumentBehind(ep, packet);
      ArgumentBehind(Blank(), packet);
    }
  }

  // With a packet that is dispatched by its own text.
  lemma DispatchedOwnIff(cfg: Config, s: Dev, packet: string, cmd: Cmd)
    requires s.Ok(cfg) && !s.receiving && |packet| < s.length
    requires Find(packet) == Some(cmd)
    ensures Plain(Answer(cfg, Delivered(s, packet), cmd)) == Plain(Answer(cfg, Delivered(s.(ep := Blank()), packet), cmd))
            <==> !(packet == "oem" && OemTail(s.ep))
  {
    var a, b := Delivered(s, packet), Delivered(s.(ep := Blank()), packet);
    Terminated(s.ep, packet);
    Terminated(Blank(), packet);
    AnswerByText(cfg, a, b, cmd);
    FindEntry(packet, cmd);
    var i :| 0 <= i < |TABLE| && TABLE[i].1 == cmd && StartsWith(packet, TABLE[i].0);
    OemEntry(i);
    OemFound();
    if cmd == Oem { OemOwnIff(cfg, s.ep, packet); }
  }

  lemma OemEntry(i: nat)
    requires i < |TABLE|
    ensures TABLE[i].1 == Oem <==> i == 7
    ensures TABLE[7].0 == "oem"
  {
  }

  lemma OemFound()
    ensures Find("oem") == Some(Oem)
  {
    OemEntry(7);
    assert "oem"[..3] == "oem";
    FindIs("oem", 7, 0);
  }

  /** A packet is answered by its own text alone exactly when it does not begin a command that is
      completed by leftovers, and is not "oem" in front of an argument left over. */
  lemma OwnAnswerIff(cfg: Config, s: Dev, packet: string)
    requires s.Ok(cfg) && !s.receiving && |packet| <= s.length
    ensures OwnAnswer(cfg, s, packet) <==> !Completed(s.ep, packet) && !(packet == "oem" && OemTail(s.ep))
  {
    var c := Find(packet);
    OemFound();
    DispatchIff(s.ep, packet);
    BlankCompletesNothing(packet);
    if Completed(s.ep, packet) {
      CompletedShort(s.ep, packet);
      NeverUnknown(cfg, Delivered(s, packet), Find(Received(s.ep, packet)).value);
    } else if c != None && |packet| < s.length {
      DispatchedOwnIff(cfg, s, packet, c.value);
    }
  }

  lemma CompletedShort(ep: string, packet: string)
    requires |ep| == EP_BUFFER_SIZE && |packet| <= |ep| && Completed(ep, packet)
    ensures |packet| < 9 && Find(Received(ep, packet)) != None
  {
    var i :| 0 <= i < |TABLE| && CompletedBy(ep, packet, i);
    DispatchIff(ep, packet);
  }

  /** The packet is no proper beginning of a command, and not "oem" without an argument. */
  predicate Whole(packet: string) {
    packet != "oem" && forall i :: 0 <= i < |TABLE| ==> !Begins(packet, i)
  }

  predicate Begins(packet: string, i: nat)
    requires i < |TABLE|
  {
    |packet| < |TABLE[i].0| && packet == TABLE[i].0[..|packet|]
  }

  lemma WholeOwn(cfg: Config, s: Dev, packet: string)
    requires s.Ok(cfg) && !s.receiving && |packet| <= s.length && Whole(packet)
    ensures OwnAnswer(cfg, s, packet)
  {
    forall i | 0 <= i < |TABLE| ensures !CompletedBy(s.ep, packet, i) { assert !Begins(packet, i); }
    OwnAnswerIff(cfg, s, packet);
  }

  // A device with `text` from place `at` of the buffer on.
  function Holding(cfg: Config, at: nat, text: string): Dev
    requires at + |text| <= EP_BUFFER_SIZE
  {
    Dev(false, 0, 0, Nuls(cfg.bufSize), Nuls(at) + text + Nuls(EP_BUFFER_SIZE - at - |text|), EP_BUFFER_SIZE)
  }

  /** Whatever was sent before, a packet is answered by its own text exactly when it is whole. */
  lemma WholeIff(cfg: Config, packet: string)
    requires cfg.Ok() && |packet| <= EP_BUFFER_SIZE
    ensures (forall s: Dev :: s.Ok(cfg) && !s.receiving ==> OwnAnswer(cfg, s, packet)) <==> Whole(packet)
  {
    if Whole(packet) {
      forall s: Dev | s.Ok(cfg) && !s.receiving ensures OwnAnswer(cfg, s, packet) { WholeOwn(cfg, s, packet); }
    } else if packet == "oem" {
      var s := Holding(cfg, 4, "unlock");
      HoldsUnlock(cfg);
      OwnAnswerIff(cfg, s, packet);
    } else {
      var i :| 0 <= i < |TABLE| && Begins(packet, i);
      var w := TABLE[i].0;
      var s := Holding(cfg, |packet|, w[|packet|..]);
      assert s.ep[|packet|..|w|] == w[|packet|..];
      assert CompletedBy(s.ep, packet, i);
      OwnAnswerIff(cfg, s, packet);
    }
  }

  lemma HoldsUnlock(cfg: Config)
    ensures OemTail(Holding(cfg, 4, "unlock").ep)
  {
    var ep := Holding(cfg, 4, "unlock").ep;
    assert ep[4..] == "unlock" + Nuls(EP_BUFFER_SIZE - 10);
    CStringIs(ep[4..], 6);
    assert ep[4..][..6] == "unlock";
  }

  // What an unknown command leaves in the buffer.
  lemma LeftBehind(cfg: Config, s: Dev, w: string)
    requires s.Ok(cfg) && !s.receiving && 1 <= |w| <= 9
    ensures var r := Command(cfg, s, "X" + w[1..]);
            && r != None && r.value.1 == Fail(UnknownCommand) && r.value.0.Ok(cfg) && !r.value.0.receiving
            && r.value.0.ep[1..|w|] == w[1..]
  {
    var p := "X" + w[1..];
    var ep := Received(s.ep, p);
    assert ep[0] == 'X';
    NotFound(ep);
    var t := Command(cfg, s, p).value.0;
    assert t.ep == ep[0 := NUL];
    assert forall k :: 1 <= k < |w| ==> t.ep[k] == p[k] == w[k];
  }

  /** Every command can be called with any proper beginning of it, down to the first letter, from
      every state: the packet before leaves the rest. */
  lemma StaleInTwo(cfg: Config, s: Dev, i: nat, k: nat)
    requires s.Ok(cfg) && !s.receiving && i < |TABLE| && 1 <= k < |TABLE[i].0|
    ensures var w := TABLE[i].0;
            var r := Command(cfg, s, "X" + w[1..]);
            && r != None && r.value.1 == Fail(UnknownCommand) && r.value.0.Ok(cfg) && !r.value.0.receiving
            && Find(w[..k]) == None && Find(Received(r.value.0.ep, w[..k])) == Some(TABLE[i].1)
            && !OwnAnswer(cfg, r.value.0, w[..k])
  {
    var w := TABLE[i].0;
    LeftBehind(cfg, s, w);
    var t := Command(cfg, s, "X" + w[1..]).value.0;
    assert t.ep[k..|w|] == t.ep[1..|w|][k - 1..] == w[1..][k - 1..] == w[k..];
    assert CompletedBy(t.ep, w[..k], i);
    StartsIff(t.ep, w[..k], i);
    FindIs(Received(t.ep, w[..k]), i, 0);
    DispatchIff(t.ep, w[..k]);
    OwnAnswerIff(cfg, t, w[..k]);
  }

  /** An unknown command and a single letter reset the device. */
  lemma OneLetterReboots(cfg: Config, s: Dev)
    requires s.Ok(cfg) && !s.receiving
    ensures var r := Command(cfg, s, "Xeboot");
            && r != None && r.value.1 == Fail(UnknownCommand) && r.value.0.Ok(cfg) && !r.value.0.receiving
            && Find("r") == None && Find(Received(r.value.0.ep, "r")) == Some(Reboot)
            && Command(cfg, r.value.0, "r") != None && Command(cfg, r.value.0, "r").value.1 == Okay("")
  {
    var w := "reboot";
    assert TABLE[0].0 == w && "X" + w[1..] == "Xeboot" && w[..1] == "r";
    StaleInTwo(cfg, s, 0, 1);
    var t := Command(cfg, s, "Xeboot").value.0;
    Terminated(t.ep, "r");
    ShortIsPlain("r");
  }

  lemma ShortIsPlain(packet: string)
    requires |packet| < 9
    ensures !IsRebootBootloader(CString(packet))
  {
  }

  /** Otherwise it gives one proper answer, and DATA exactly when it goes on to the data phase. */
  lemma CommandAnswered(cfg: Config, s: Dev, packet: string)
    requires s.Ok(cfg) && !s.receiving && |packet| <= s.length && Command(cfg, s, packet) != None
    ensures var (t, r) := Command(cfg, s, packet).value;
            && t.Ok(cfg) && Proper(Wire(r)) && t.ep[0] == NUL
            && (if t.receiving then r == Data(t.size) && t.bytes == 0 else !Tagged(Wire(r), "DATA"))
  {
    var s1 := s.(ep := Received(s.ep, packet));
    var cmd := Find(s1.ep);
    if cmd != None && |packet| < s.length { AnswerProper(cfg, s1.(ep := s1.ep[|packet| := NUL]), cmd.value); }
    WireProper(Command(cfg, s, packet).value.1);
  }

  lemma DataStep(cfg: Config, s: Dev, packet: string)
    requires s.Ok(cfg) && s.receiving && |packet| <= s.length
    ensures var (t, r) := DataPacket(cfg, s, packet);
            && t.Ok(cfg)
            && (if s.size - s.bytes <= |packet| then !t.receiving && r == Some("OKAY") && t.bytes == s.size
                else t.receiving && r == None && t.size == s.size && t.bytes == s.bytes + |packet|)
            && t.Image() == s.Image() + packet[..t.bytes - s.bytes]
  {
  }

  // ------------------------------------------------------------------ whole sessions

  datatype Event = Sent(packet: string) | Got(response: string)

  /** The rules of the protocol for a conversation; `due` is the number of bytes still due in
      the data phase, 0 outside it. */
  predicate Conforms(due: nat, es: seq<Event>)
    decreases |es|
  {
    if es == [] then true
    else if es[0].Got? then false
    else if 0 < due && |es[0].packet| < due then Conforms(due - |es[0].packet|, es[1..])
    else
      && 2 <= |es| && es[1].Got? && Proper(es[1].response)
      && var r := es[1].response;
         if 0 < due then r == "OKAY" && Conforms(0, es[2..])
         else if Tagged(r, "DATA") then
           |r| == 12 && 0 < ParseHex(r[4..]) && Conforms(ParseHex(r[4..]), es[2..])
         else Conforms(0, es[2..])
  }

  function Due(s: Dev): nat
  {
    if s.receiving && s.bytes <= s.size then s.size - s.bytes else 0
  }

  // The host sends the packets, one for each request of the device, until the device is lost.
  function Session(cfg: Config, s: Dev, ps: seq<string>): (r: (seq<Event>, Dev))
    requires s.Ok(cfg)
    decreases |ps|
  {
    if ps == [] || s.length < |ps[0]| then ([], s)
    else if s.receiving then
      DataStep(cfg, s, ps[0]);
      var (t, r) := DataPacket(cfg, s, ps[0]);
      var (es, u) := Session(cfg, t, ps[1..]);
      ([Sent(ps[0])] + (if r == None then [] else [Got(r.value)]) + es, u)
    else if Command(cfg, s, ps[0]) == None then ([], s)
    else
      CommandAnswered(cfg, s, ps[0]);
      var (t, r) := Command(cfg, s, ps[0]).value;
      var (es, u) := Session(cfg, t, ps[1..]);
      ([Sent(ps[0]), Got(Wire(r))] + es, u)
  }

  lemma ConformsCommand(p: string, r: Response, due: nat, es: seq<Event>)
    requires Conforms(due, es) && due < U32 && (if 0 < due then r == Data(due) else !r.Data?)
    ensures Conforms(0, [Sent(p), Got(Wire(r))] + es)
  {
    assert ([Sent(p), Got(Wire(r))] + es)[2..] == es;
    WireProper(r);
    if 0 < due {
      HexRoundTrip(due);
      assert Wire(r)[4..] == Hex(due, 8);
    }
  }

  lemma AnswerConforms(cfg: Config, s: Dev, packet: string, es: seq<Event>)
    requires s.Ok(cfg) && !s.receiving && |packet| <= s.length && Command(cfg, s, packet) != None
    requires Conforms(Due(Command(cfg, s, packet).value.0), es)
    ensures Conforms(0, [Sent(packet), Got(Wire(Command(cfg, s, packet).value.1))] + es)
  {
    CommandAnswered(cfg, s, packet);
    var (t, r) := Command(cfg, s, packet).value;
    WireProper(r);
    ConformsCommand(packet, r, Due(t), es);
  }

  /** Every session follows the rules of the protocol. */
  lemma {:induction false} SessionConforms(cfg: Config, s: Dev, ps: seq<string>)
    requires s.Ok(cfg)
    ensures Conforms(Due(s), Session(cfg, s, ps).0)
    decreases |ps|
  {
    if ps == [] || s.length < |ps[0]| {
    } else if s.receiving {
      var (t, r) := DataPacket(cfg, s, ps[0]);
      DataStep(cfg, s, ps[0]);
      SessionConforms(cfg, t, ps[1..]);
    } else if Command(cfg, s, ps[0]) != None {
      var (t, r) := Command(cfg, s, ps[0]).value;
      CommandAnswered(cfg, s, ps[0]);
      SessionConforms(cfg, t, ps[1..]);
      AnswerConforms(cfg, s, ps[0], Session(cfg, t, ps[1..]).0);
    }
  }

  /** In the session from `s`, every packet that is taken for a command is whole. */
  predicate CommandsWhole(cfg: Config, s: Dev, ps: seq<string>)
    requires s.Ok(cfg)
    decreases |ps|
  {
    if ps == [] || s.length < |ps[0]| then true
    else if s.receiving then
      DataStep(cfg, s, ps[0]);
      CommandsWhole(cfg, DataPacket(cfg, s, ps[0]).0, ps[1..])
    else
      && Whole(ps[0])
      && (Command(cfg, s, ps[0]) != None ==>
            (CommandAnswered(cfg, s, ps[0]); CommandsWhole(cfg, Command(cfg, s, ps[0]).value.0, ps[1..])))
  }

  // The same device, but for what is in the endpoint buffer.
  predicate Alike(s: Dev, s': Dev) { s.(ep := Blank()) == s'.(ep := Blank()) }

  lemma DataAlike(cfg: Config, s: Dev, s': Dev, packet: string)
    requires s.Ok(cfg) && s'.Ok(cfg) && Alike(s, s') && s.receiving && |packet| <= s.length
    ensures var (t, r), (t', r') := DataPacket(cfg, s, packet), DataPacket(cfg, s', packet);
            Alike(t, t') && r == r'
  {
  }

  lemma CommandAlike(cfg: Config, s: Dev, s': Dev, packet: string)
    requires s.Ok(cfg) && s'.Ok(cfg) && Alike(s, s') && !s.receiving && |packet| <= s.length && Whole(packet)
    ensures Plain(Command(cfg, s, packet)) == Plain(Command(cfg, s', packet))
  {
    WholeOwn(cfg, s, packet);
    WholeOwn(cfg, s', packet);
  }

  /** A host that sends whole commands gets the same responses whatever was in the buffer before:
      every command of every session is answered by its own text. */
  lemma {:induction false} SessionByText(cfg: Config, s: Dev, s': Dev, ps: seq<string>)
    requires s.Ok(cfg) && s'.Ok(cfg) && Alike(s, s') && CommandsWhole(cfg, s, ps)
    ensures Session(cfg, s, ps).0 == Session(cfg, s', ps).0 && Alike(Session(cfg, s, ps).1, Session(cfg, s', ps).1)
    decreases |ps|
  {
    if ps == [] || s.length < |ps[0]| {
    } else if s.receiving {
      DataStep(cfg, s, ps[0]);
      DataStep(cfg, s', ps[0]);
      DataAlike(cfg, s, s', ps[0]);
      SessionByText(cfg, DataPacket(cfg, s, ps[0]).0, DataPacket(cfg, s', ps[0]).0, ps[1..]);
    } else {
      CommandAlike(cfg, s, s', ps[0]);
      if Command(cfg, s, ps[0]) != None {
        CommandAnswered(cfg, s, ps[0]);
        CommandAnswered(cfg, s', ps[0]);
        SessionByText(cfg, Command(cfg, s, ps[0]).value.0, Command(cfg, s', ps[0]).value.0, ps[1..]);
      }
    }
  }

  // ------------------------------------------------------------------ downloads

  function Concat(ps: seq<string>): string {
    if ps == [] then "" else ps[0] + Concat(ps[1..])
  }

  // Every packet is one that the device has asked for: not longer than its request.
  predicate Asked(cfg: Config, s: Dev, ps: seq<string>)
    requires s.Ok(cfg)
    decreases |ps|
  {
    if ps == [] || !s.receiving then true
    else
      && |ps[0]| <= s.length
      && (DataStep(cfg, s, ps[0]); Asked(cfg, DataPacket(cfg, s, ps[0]).0, ps[1..]))
  }

  // The data phase over the packets `ps`.
  function Feed(cfg: Config, s: Dev, ps: seq<string>): (t: Dev)
    requires s.Ok(cfg) && Asked(cfg, s, ps)
    ensures t.Ok(cfg)
    decreases |ps|
  {
    if ps == [] || !s.receiving then s
    else
      DataStep(cfg, s, ps[0]);
      Feed(cfg, DataPacket(cfg, s, ps[0]).0, ps[1..])
  }

  lemma JoinCut(image: string, p: string, rest: string, due: nat)
    ensures p[..|p|] == p && image + (p + rest) == image + p + rest
    ensures |p| < due <= |p + rest| ==> image + (p + rest)[..due] == image + p + rest[..due - |p|]
    ensures due <= |p| ==> (p + rest)[..due] == p[..due]
  {
    if |p| < due <= |p + rest| {
      assert (p + rest)[..due] == p + rest[..due - |p|];
    }
  }

  /** However the data is split into packets, short and empty ones included, the data phase
      ends with the packet that completes the announced length, and not before, and the image
      in memory is the data up to that length. */
  lemma {:induction false} DownloadSplit(cfg: Config, s: Dev, ps: seq<string>)
    requires s.Ok(cfg) && s.receiving && Asked(cfg, s, ps)
    ensures var t := Feed(cfg, s, ps);
            && (t.receiving <==> |Concat(ps)| < s.size - s.bytes)
            && t.Image() == s.Image() + (if |Concat(ps)| < s.size - s.bytes then Concat(ps)
                                         else Concat(ps)[..s.size - s.bytes])
            && (t.receiving ==> t.size == s.size) && (!t.receiving ==> t.bytes == s.size)
    decreases |ps|
  {
    if ps != [] {
      var p := ps[0];
      DataStep(cfg, s, p);
      var t := DataPacket(cfg, s, p).0;
      JoinCut(s.Image(), p, Concat(ps[1..]), s.size - s.bytes);
      if t.receiving { DownloadSplit(cfg, t, ps[1..]); }
    }
  }

  // A command with an argument, whose text has no NUL, is answered by its text alone.
  lemma TextOf(ep: string, head: string, arg: string)
    requires |head + ":" + arg| < |ep|
    requires forall i :: 0 <= i < |head| ==> head[i] != NUL && head[i] != ':'
    requires forall i :: 0 <= i < |arg| ==> arg[i] != NUL
    ensures var packet := head + ":" + arg;
            var buf := Received(ep, packet)[|packet| := NUL];
            && CString(buf) == packet && ColonAt(packet) == |head| && AfterColon(packet) == Some(arg)
            && Separated(buf)[|head|] == NUL
  {
    var packet := head + ":" + arg;
    Terminated(ep, packet);
    CStringIs(packet, |packet|);
    assert packet[..|packet|] == packet;
    PlaceIs(packet, ':', |head|);
    assert packet[|head| + 1..] == arg;
  }

  lemma FoundFlash(t: string)
    requires StartsWith(t, "flash")
    ensures Find(t) == Some(Flash)
  {
    assert t[0] == "flash"[0];
    NoOther(t, 0);
    NoOther(t, 1);
    NoOther(t, 2);
    NoOther(t, 3);
    NoOther(t, 4);
    assert FindFrom(t, 5) == Some(Flash);
    assert FindFrom(t, 3) == Some(Flash);
  }

  // The download command for `n` bytes.
  function DownloadText(n: nat): string { "download" + ":" + Hex(n, 8) }

  /** Announcing `n` bytes: accepted exactly when they fit into the memory for the image, and
      then announced back; a refused download leaves an empty image. */
  lemma DownloadAnnounced(cfg: Config, s: Dev, n: nat)
    requires s.Ok(cfg) && !s.receiving && n < U32
    ensures Command(cfg, s, DownloadText(n)) != None
    ensures var (t, r) := Command(cfg, s, DownloadText(n)).value;
            && t.Ok(cfg) && t.ep[8] == NUL
            && (t.receiving <==> 0 < n <= cfg.bufSize)
            && (t.receiving ==> t.size == n && t.bytes == 0 && r == Data(n))
            && (!t.receiving ==> r.Fail? && t.Image() == "")
  {
    var p := DownloadText(n);
    var s1 := s.(ep := Received(s.ep, p)[|p| := NUL]);
    DownloadFound(s.ep, n);
    TextOf(s.ep, "download", Hex(n, 8));
    AnswerDownload(cfg, s1, n);
    assert Command(cfg, s, p) != None;
  }

  lemma DownloadFound(ep: string, n: nat)
    requires |ep| == EP_BUFFER_SIZE
    ensures Find(Received(ep, DownloadText(n))) == Some(Download)
  {
    var p := DownloadText(n);
    assert p[..9] == "download:";
    Spelled(ep, p, "download:");
    FoundDownload(Received(ep, p));
  }

  lemma AnswerDownload(cfg: Config, s: Dev, n: nat)
    requires s.Ok(cfg) && !s.receiving && n < U32 && AfterColon(CString(s.ep)) == Some(Hex(n, 8))
    ensures Answer(cfg, s, Download) != None
    ensures var (t, r) := Answer(cfg, s, Download).value;
            && t.Ok(cfg) && t.ep == Separated(s.ep)
            && (t.receiving <==> 0 < n <= cfg.bufSize)
            && (t.receiving ==> t.size == n && t.bytes == 0 && r == Data(n))
            && (!t.receiving ==> r.Fail? && t.bytes == 0)
  {
    HexRoundTrip(n);
    AnswerProper(cfg, s, Download);
  }

  /** A download command does not leave the trap behind: its colon is gone from the buffer. */
  lemma DownloadLeavesNoTrap(cfg: Config, s: Dev, n: nat, packet: string)
    requires s.Ok(cfg) && !s.receiving && n < U32 && !(0 < n <= cfg.bufSize)
    requires 1 <= |packet| < 9
    ensures Command(cfg, s, DownloadText(n)) != None && Command(cfg, s, DownloadText(n)).value.0.Ok(cfg)
    ensures Command(cfg, Command(cfg, s, DownloadText(n)).value.0, packet) != None
  {
    DownloadAnnounced(cfg, s, n);
    var t := Command(cfg, s, DownloadText(n)).value.0;
    LostIff(cfg, t, packet);
    assert t.ep[|packet|..9][8 - |packet|] == t.ep[8];
  }

  /** Flashing passes the image on and answers as the flash layer says. */
  lemma FlashAnswered(cfg: Config, s: Dev, part: string)
    requires s.Ok(cfg) && !s.receiving
    requires |part| < EP_BUFFER_SIZE - 6 && forall i :: 0 <= i < |part| ==> part[i] != NUL
    ensures && Command(cfg, s, "flash" + ":" + part) != None
            && Command(cfg, s, "flash" + ":" + part).value.1 == Result(cfg.flash(part, s.Image()))
  {
    var p := "flash" + ":" + part;
    assert p[..5] == "flash";
    Spelled(s.ep, p, "flash");
    FoundFlash(Received(s.ep, p));
    TextOf(s.ep, "flash", part);
  }

  /** End to end: announce, send in any packets, flash: what is flashed is the announced
      number of bytes of what was sent. */
  lemma DownloadThenFlash(cfg: Config, s: Dev, n: nat, ps: seq<string>, part: string)
    requires s.Ok(cfg) && !s.receiving && 0 < n <= cfg.bufSize
    requires |part| < EP_BUFFER_SIZE - 6 && forall i :: 0 <= i < |part| ==> part[i] != NUL
    requires Command(cfg, s, DownloadText(n)) != None && Command(cfg, s, DownloadText(n)).value.0.Ok(cfg)
    requires var s1 := Command(cfg, s, DownloadText(n)).value.0;
             Asked(cfg, s1, ps) && n <= |Concat(ps)|
    ensures var s2 := Feed(cfg, Command(cfg, s, DownloadText(n)).value.0, ps);
            && !s2.receiving && s2.Image() == Concat(ps)[..n]
            && Command(cfg, s2, "flash" + ":" + part) != None
            && Command(cfg, s2, "flash" + ":" + part).value.1 == Result(cfg.flash(part, Concat(ps)[..n]))
  {
    DownloadAnnounced(cfg, s, n);
    var s1 := Command(cfg, s, DownloadText(n)).value.0;
    DownloadSplit(cfg, s1, ps);
    var s2 := Feed(cfg, s1, ps);
    assert s1.Image() + Concat(ps)[..n] == Concat(ps)[..n];
    FlashAnswered(cfg, s2, part);
  }
}
