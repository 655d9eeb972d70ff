/** The named-pipe command interface of file_fifo.c.  A line read from the
    input pipe is split on spaces and newlines as strtok does; its first
    word is looked up case-insensitively in the command table and the
    handler chosen answers with a response code: "-1" for an error, "0" for
    a setting accepted, "1" followed by the data asked for.  Responses and
    error texts are left in global buffers with a pending byte count that
    the output thread drains.

    The application accessors (App_Get_*, App_Set_*) are not part of this
    model: values are read from an `App` snapshot and settings come out as
    an `AppCall`.  printf-style formatting and sscanf parsing are the
    parameters of `Libc`. */
module FileFifo {
  import opened CStrings
  import opened Wrappers

  /** sizeof(g_in_buffer). */
  const InBufferSize: nat := 1024
  /** NBR_OF_THERMISTORS = NBR_ADC_CHANNELS - 1. */
  const NbrOfThermistors: nat := 10
  /** sizeof(name) in File_Fifo_Set_Channel_Name. */
  const NameBufferSize: nat := 128

  /** `(char)EOF`, which fgetc keeps returning once the writer has gone. */
  const EofChar: char := 0xFF as char

  /** cmd_list, in table order; the position is the cmd_id_type value. */
  const Commands: seq<string> := [
    "VER", "EXIT", "SET_CABINET_TARGET", "GET_CABINET_TARGET",
    "SET_PROBE_TARGET", "GET_PROBE_TARGET", "GET_PROBE_TEMP", "GET_ALL_TEMPS",
    "SET_CHANNEL_NAME", "GET_CHANNEL_NAMES", "SET_KP", "SET_KI", "SET_KL",
    "GET_KP", "GET_KI", "GET_KL"]

  const CmdGetVersion: nat := 0
  const CmdExit: nat := 1
  const CmdSetCabTemp: nat := 2
  const CmdGetCabTemp: nat := 3
  const CmdSetProbeTargetTemp: nat := 4
  const CmdGetProbeTargetTemp: nat := 5
  const CmdGetProbeTemp: nat := 6
  const CmdGetAllTemps: nat := 7
  const CmdSetChannelName: nat := 8
  const CmdGetChannelNames: nat := 9
  const CmdSetPGain: nat := 10
  const CmdSetIGain: nat := 11
  const CmdSetILimit: nat := 12
  const CmdGetPGain: nat := 13
  const CmdGetIGain: nat := 14
  const CmdGetILimit: nat := 15

  /** "1\n%d.%d.%d\n" with FIRMWARE_MAJOR 0, FIRMWARE_MINOR 1 and revision 1. */
  const VersionResponse: string := "1\n0.1.1\n"

  const Rejected: string := "-1\n"
  const Accepted: string := "0\n"
  const NotImplementedText: string := "Cmd not implemented\n"

  // ---------------------------------------------------------------------
  // Tokenizing: strtok(s, " \n") on a NUL-free line

  predicate IsDelim(c: char)
  {
    c == ' ' || c == '\n'
  }

  /** The delimiters strtok skips before a token. */
  function SkipDelims(s: string): (r: string)
    ensures |r| <= |s| && r == s[|s| - |r|..]
    ensures r != [] ==> !IsDelim(r[0])
    ensures forall j :: 0 <= j < |s| - |r| ==> IsDelim(s[j])
    decreases |s|
  {
    if s != [] && IsDelim(s[0]) then SkipDelims(s[1..]) else s
  }

  /** Length of the token at the start of s. */
  function TokenLength(s: string): (n: nat)
    ensures n <= |s|
    ensures forall j :: 0 <= j < n ==> !IsDelim(s[j])
    ensures n < |s| ==> IsDelim(s[n])
    decreases |s|
  {
    if s == [] || IsDelim(s[0]) then 0 else 1 + TokenLength(s[1..])
  }

  /** One strtok call: NULL when only delimiters remain; otherwise the
      token and the text after the delimiter that ended it (which strtok
      overwrites with NUL and steps over). */
  function StrTok(s: string): (r: Option<(string, string)>)
    ensures r.None? <==> forall j :: 0 <= j < |s| ==> IsDelim(s[j])
    ensures r.Some? ==> r.value.0 != [] && forall j :: 0 <= j < |r.value.0| ==> !IsDelim(r.value.0[j])
    ensures r.Some? ==> |r.value.1| < |s|
  {
    var t := SkipDelims(s);
    if t == [] then None
    else
      var n := TokenLength(t);
      Some((t[..n], if n < |t| then t[n + 1..] else []))
  }

  predicate IsWord(w: string)
  {
    w != [] && forall j :: 0 <= j < |w| ==> !IsDelim(w[j])
  }

  /** Tokenizing undoes writing the words out: a word followed by a
      delimiter comes back as the token, with the text after the delimiter
      left for the next call. */
  lemma StrTokWord(w: string, d: char, rest: string)
    requires IsWord(w) && IsDelim(d)
    ensures StrTok(w + [d] + rest) == Some((w, rest))
  {
    var s := w + ([d] + rest);
    assert s == w + [d] + rest;
    assert s[0] == w[0];
    assert SkipDelims(s) == s;
    WordLength(w, [d] + rest);
    assert s[..|w|] == w;
    assert s[|w| + 1..] == rest;
  }

  lemma {:induction false} WordLength(w: string, s: string)
    requires forall j :: 0 <= j < |w| ==> !IsDelim(w[j])
    requires s == [] || IsDelim(s[0])
    ensures TokenLength(w + s) == |w|
    decreases |w|
  {
    if w != [] {
      assert (w + s)[1..] == w[1..] + s;
      WordLength(w[1..], s);
    } else {
      assert w + s == s;
    }
  }

  /** A word that ends the text is the last token. */
  lemma StrTokWhole(w: string)
    requires IsWord(w)
    ensures StrTok(w) == Some((w, []))
  {
    assert SkipDelims(w) == w;
    WordLength(w, []);
    assert w + [] == w;
  }

  /** A word alone at the end of a line is the last token. */
  lemma StrTokLastWord(w: string)
    requires IsWord(w)
    ensures StrTok(w + "\n") == Some((w, []))
  {
    StrTokWord(w, '\n', []);
    assert w + ['\n'] + [] == w + "\n";
  }

  // ---------------------------------------------------------------------
  // Command lookup

  /** The lookup loop from entry k on: the first entry, in table order,
      equal to the word up to letter case. */
  function LookupFrom(word: string, k: nat): (r: Option<nat>)
    requires k <= |Commands|
    ensures r.Some? ==> k <= r.value < |Commands| && CaseInsensitiveEqual(word, Commands[r.value])
    ensures r.Some? ==> forall j :: k <= j < r.value ==> !CaseInsensitiveEqual(word, Commands[j])
    ensures r.None? <==> forall j :: k <= j < |Commands| ==> !CaseInsensitiveEqual(word, Commands[j])
    decreases |Commands| - k
  {
    if k == |Commands| then None
    else if CaseInsensitiveEqual(word, Commands[k]) then Some(k)
    else LookupFrom(word, k + 1)
  }

  function Lookup(word: string): (r: Option<nat>)
    ensures r.Some? ==> r.value < |Commands| && CaseInsensitiveEqual(word, Commands[r.value])
    ensures r.None? <==> forall j :: 0 <= j < |Commands| ==> !CaseInsensitiveEqual(word, Commands[j])
  {
    LookupFrom(word, 0)
  }

  /** Case-insensitive equality is transitive. */
  lemma EqualTransitive(a: string, b: string, c: string)
    requires CaseInsensitiveEqual(a, b) && CaseInsensitiveEqual(a, c)
    ensures CaseInsensitiveEqual(b, c)
  {
    forall j | 0 <= j < |b| ensures ToLower(b[j]) == ToLower(c[j]) {
      assert ToLower(a[j]) == ToLower(b[j]) && ToLower(a[j]) == ToLower(c[j]);
    }
  }

  /** No two entries of the table are equal up to case. */
  lemma TableDistinct(i: nat, j: nat)
    requires i < |Commands| && j < |Commands| && i != j
    ensures !CaseInsensitiveEqual(Commands[i], Commands[j])
  {
    var p, q := Commands[i], Commands[j];
    if |p| == |q| {
      if p[0] != q[0] {
        assert ToLower(p[0]) != ToLower(q[0]);
      } else if p[4] != q[4] {
        assert ToLower(p[4]) != ToLower(q[4]);
      } else {
        assert ToLower(p[5]) != ToLower(q[5]);
      }
    }
  }

  /** So the lookup finds an entry exactly when the word equals it. */
  lemma LookupFindsEqual(word: string, i: nat)
    requires i < |Commands|
    ensures Lookup(word) == Some(i) <==> CaseInsensitiveEqual(word, Commands[i])
  {
    if CaseInsensitiveEqual(word, Commands[i]) {
      var k := Lookup(word).value;
      if k != i {
        EqualTransitive(word, Commands[k], Commands[i]);
        TableDistinct(k, i);
      }
    }
  }

  // ---------------------------------------------------------------------
  // Handlers and response codes

  /** What the program knows when a command arrives. */
  datatype App = App(cabinetSetpoint: real, kp: real, ki: real, kl: real,
                     tempDegF: seq<real>, channelNames: seq<string>)

  ghost predicate WellFormedApp(app: App)
  {
    |app.tempDegF| == NbrOfThermistors && |app.channelNames| == NbrOfThermistors
  }

  /** The C library routines the handlers use: "%4.2f" formatting, sscanf
      with "%f" and "%d" (None when nothing was converted), and the value an
      `int` local holds when sscanf did not write it. */
  datatype Libc = Libc(format: real -> string, scanFloat: string -> Option<real>,
                       scanInt: string -> Option<int>, unsetInt: int)

  /** The float a set handler forwards: its local starts at 0.0 and keeps
      that value when sscanf converts nothing. */
  function ScannedFloat(libc: Libc, text: string): real
  {
    match libc.scanFloat(text)
    case None => 0.0
    case Some(v) => v
  }

  function ScannedInt(libc: Libc, text: string): int
  {
    match libc.scanInt(text)
    case None => libc.unsetInt
    case Some(v) => v
  }

  datatype Setting = CabinetSetpoint | Kp | Ki | Kl

  /** The call a command makes into the application.  A channel name is
      None when the name token is too long for `name[128]`, which is then
      passed on without being written. */
  datatype AppCall = NoCall | Set(setting: Setting, value: real) | SetChannelName(channel: int, name: Option<string>)

  /** The outcome of one command line: the response, the error text if one
      is reported, and the application call; or a crash, for SET_CHANNEL_NAME
      without a name, where strlen is applied to NULL. */
  datatype Outcome = Reply(response: string, error: Option<string>, call: AppCall) | NullDereference

  /** A response carrying data: code 1 on its own line, then the data. */
  function Data(text: string): (r: string)
    ensures |r| >= 2 && r[..2] == "1\n" && r[2..] == text
    ensures r != Rejected && r != Accepted
  {
    assert ("1\n" + text)[0] == '1';
    "1\n" + text
  }

  /** The response-code rules: every answer starts with -1, 0 or 1; an error
      text comes only with -1; exactly the answers 0 set something. */
  predicate Coded(o: Outcome)
  {
    o.Reply? ==>
      && (o.response == Rejected || o.response == Accepted || (|o.response| >= 2 && o.response[..2] == "1\n"))
      && (o.error.Some? ==> o.response == Rejected)
      && (o.response == Accepted <==> o.call != NoCall)
  }

  /** A joined list, items separated by commas. */
  function Join(items: seq<string>): string
    requires items != []
    decreases |items|
  {
    if |items| == 1 then items[0] else Join(items[..|items| - 1]) + "," + items[|items| - 1]
  }

  /** The list responses: the items joined with commas, then a newline. */
  function ListResponse(items: seq<string>): string
  {
    Data(if items == [] then [] else Join(items) + "\n")
  }

  /** What the list builders append: every item followed by a comma. */
  function WithCommas(items: seq<string>): string
    decreases |items|
  {
    if items == [] then [] else WithCommas(items[..|items| - 1]) + items[|items| - 1] + ","
  }

  /** The trailing-comma form is the joined form plus one comma, so
      replacing the last character by '\n' yields the list response. */
  lemma {:induction false} WithCommasJoin(items: seq<string>)
    requires items != []
    ensures WithCommas(items) == Join(items) + ","
    decreases |items|
  {
    if |items| > 1 {
      WithCommasJoin(items[..|items| - 1]);
    } else {
      assert items[..0] == [];
    }
  }

  /** The loop of File_Fifo_Get_Channel_Names and File_Fifo_Get_All_Probe_Temps:
      start from "1\n", append each item and a comma, then overwrite the
      last character with '\n'. */
  method BuildList(items: seq<string>) returns (s: string)
    ensures s == ListResponse(items)
  {
    s := "1\n";
    var i := 0;
    while i < |items|
      invariant 0 <= i <= |items|
      invariant s == "1\n" + WithCommas(items[..i])
    {
      assert items[..i + 1][..i] == items[..i];
      s := s + items[i] + ",";
      i := i + 1;
    }
    assert items[..i] == items;
    if items != [] {
      WithCommasJoin(items);
      assert s[..|s| - 1] == "1\n" + Join(items);
    }
    s := s[..|s| - 1] + "\n";
  }

  /** The set handlers: no argument token reports `errorText` and answers
      -1; otherwise the parsed value is forwarded and the answer is 0. */
  function SetHandler(arg: Option<string>, libc: Libc, setting: Setting, errorText: string): (o: Outcome)
    ensures Coded(o) && o.Reply?
    ensures o.response == Accepted <==> arg.Some?
    ensures o.call != NoCall ==> o.call == Set(setting, ScannedFloat(libc, arg.value))
    ensures o.error.Some? <==> arg.None?
  {
    match arg
    case None => Reply(Rejected, Some(errorText), NoCall)
    case Some(t) => Reply(Accepted, None, Set(setting, ScannedFloat(libc, t)))
  }

  /** The get handlers of a single value: code 1, then the value. */
  function GetHandler(value: real, libc: Libc): (o: Outcome)
    ensures Coded(o) && o.Reply? && o.call == NoCall && o.error.None?
    ensures o.response[2..] == libc.format(value) + "\n"
  {
    Reply(Data(libc.format(value) + "\n"), None, NoCall)
  }

  /** File_Fifo_Get_Probe_Temp: the channel must lie in [0, 10). */
  function GetProbeTemp(arg: Option<string>, app: App, libc: Libc): (o: Outcome)
    requires WellFormedApp(app)
    ensures Coded(o) && o.Reply? && o.call == NoCall
    ensures o.response != Rejected <==> arg.Some? && 0 <= ScannedInt(libc, arg.value) < NbrOfThermistors
    ensures o.response != Rejected ==> o.response[2..] == libc.format(app.tempDegF[ScannedInt(libc, arg.value)]) + "\n"
    ensures o.error.Some? <==> arg.None?
  {
    match arg
    case None => Reply(Rejected, Some("Error:  Tokens - Get Probe Temp\n"), NoCall)
    case Some(t) =>
      var channel := ScannedInt(libc, t);
      if 0 <= channel < NbrOfThermistors then
        Reply(Data(libc.format(app.tempDegF[channel]) + "\n"), None, NoCall)
      else Reply(Rejected, None, NoCall)
  }

  /** File_Fifo_Set_Channel_Name: a channel token, then a name token read
      by a third strtok call. */
  function SetChannelNameHandler(arg: Option<(string, string)>, libc: Libc): (o: Outcome)
    ensures Coded(o)
    ensures arg.None? ==> o == Reply(Rejected, None, NoCall)
    ensures o.NullDereference? <==> arg.Some? && StrTok(arg.value.1).None?
    ensures o.Reply? && arg.Some? ==>
      (o.response == Accepted && o.call.SetChannelName? && o.call.channel == ScannedInt(libc, arg.value.0))
    ensures o.Reply? && arg.Some? ==>
      o.call.name == (var n := StrTok(arg.value.1).value.0; if |n| < NameBufferSize - 1 then Some(n) else None)
  {
    match arg
    case None => Reply(Rejected, None, NoCall)
    case Some((t, rest)) =>
      var channel := ScannedInt(libc, t);
      match StrTok(rest)
      case None => NullDereference
      case Some((name, _)) =>
        Reply(Accepted, None, SetChannelName(channel, if |name| < NameBufferSize - 1 then Some(name) else None))
  }

  function AllTemps(app: App, libc: Libc): seq<string>
    requires WellFormedApp(app)
  {
    seq(NbrOfThermistors, c requires 0 <= c < NbrOfThermistors => libc.format(app.tempDegF[c]))
  }

  /** The switch of File_Fifo_Process_Cmd for a known command number. */
  function Handle(i: nat, arg: Option<(string, string)>, app: App, libc: Libc): (o: Outcome)
    requires i < |Commands| && WellFormedApp(app)
    ensures Coded(o)
  {
    var token := if arg.None? then None else Some(arg.value.0);
    if i == CmdGetVersion then Reply(VersionResponse, None, NoCall)
    else if i == CmdExit || i == CmdSetProbeTargetTemp || i == CmdGetProbeTargetTemp then
      Reply(Rejected, Some(NotImplementedText), NoCall)
    else if i == CmdSetChannelName then SetChannelNameHandler(arg, libc)
    else if i == CmdGetChannelNames then Reply(ListResponse(app.channelNames), None, NoCall)
    else if i == CmdSetCabTemp then SetHandler(token, libc, CabinetSetpoint, "Error:  Tokens - Set Cook Temp\n")
    else if i == CmdGetCabTemp then GetHandler(app.cabinetSetpoint, libc)
    else if i == CmdGetProbeTemp then GetProbeTemp(token, app, libc)
    else if i == CmdGetAllTemps then Reply(ListResponse(AllTemps(app, libc)), None, NoCall)
    else if i == CmdSetPGain then SetHandler(token, libc, Kp, "Error:  Tokens - Set P Gain\n")
    else if i == CmdSetIGain then SetHandler(token, libc, Ki, "Error:  Tokens - Set I Gain\n")
    else if i == CmdSetILimit then SetHandler(token, libc, Kl, "Error:  Tokens - Set I Limit\n")
    else if i == CmdGetPGain then GetHandler(app.kp, libc)
    else if i == CmdGetIGain then GetHandler(app.ki, libc)
    else GetHandler(app.kl, libc)
  }

  /** File_Fifo_Process_Cmd on the C string in the input buffer: every
      outcome keeps the response-code rules, and an empty line or an unknown
      word is answered -1 with nothing reported and nothing set. */
  function ProcessCmd(line: string, app: App, libc: Libc): (o: Outcome)
    requires WellFormedApp(app)
    ensures Coded(o)
    ensures StrTok(line).None? ==> o == Reply(Rejected, None, NoCall)
    ensures StrTok(line).Some? && Lookup(StrTok(line).value.0).None? ==> o == Reply(Rejected, None, NoCall)
  {
    match StrTok(line)
    case None => Reply(Rejected, None, NoCall)
    case Some((word, rest)) =>
      match Lookup(word)
      case None => Reply(Rejected, None, NoCall)
      case Some(i) => Handle(i, StrTok(rest), app, libc)
  }

  /** A line whose first word is command i, in any letter case, is handled
      by command i with the next token as its argument. */
  lemma Dispatched(line: string, app: App, libc: Libc, i: nat)
    requires WellFormedApp(app) && i < |Commands| && StrTok(line).Some?
    requires CaseInsensitiveEqual(StrTok(line).value.0, Commands[i])
    ensures ProcessCmd(line, app, libc) == Handle(i, StrTok(StrTok(line).value.1), app, libc)
  {
    LookupFindsEqual(StrTok(line).value.0, i);
  }

  /** EXIT, SET_PROBE_TARGET and GET_PROBE_TARGET are answered -1 with
      "Cmd not implemented". */
  lemma NotImplementedRejected(line: string, app: App, libc: Libc, i: nat)
    requires WellFormedApp(app) && StrTok(line).Some?
    requires i == CmdExit || i == CmdSetProbeTargetTemp || i == CmdGetProbeTargetTemp
    requires CaseInsensitiveEqual(StrTok(line).value.0, Commands[i])
    ensures ProcessCmd(line, app, libc) == Reply(Rejected, Some(NotImplementedText), NoCall)
  {
    Dispatched(line, app, libc, i);
  }

  /** SET_KP answers 0 and forwards the parsed gain when an argument
      follows the command, and reports the missing value and answers -1
      when none does. */
  lemma SetKpAnswer(line: string, app: App, libc: Libc)
    requires WellFormedApp(app) && StrTok(line).Some?
    requires CaseInsensitiveEqual(StrTok(line).value.0, "SET_KP")
    ensures var arg := StrTok(StrTok(line).value.1);
      ProcessCmd(line, app, libc) ==
        if arg.None? then Reply(Rejected, Some("Error:  Tokens - Set P Gain\n"), NoCall)
        else Reply(Accepted, None, Set(Kp, ScannedFloat(libc, arg.value.0)))
  {
    Dispatched(line, app, libc, CmdSetPGain);
    HandleSetPGain(StrTok(StrTok(line).value.1), app, libc);
  }

  /** The SET_KP handler on its argument token. */
  lemma HandleSetPGain(arg: Option<(string, string)>, app: App, libc: Libc)
    requires WellFormedApp(app)
    ensures Handle(CmdSetPGain, arg, app, libc) ==
      if arg.None? then Reply(Rejected, Some("Error:  Tokens - Set P Gain\n"), NoCall)
      else Reply(Accepted, None, Set(Kp, ScannedFloat(libc, arg.value.0)))
  {
    assert Handle(CmdSetPGain, arg, app, libc)
        == SetHandler(if arg.None? then None else Some(arg.value.0), libc, Kp, "Error:  Tokens - Set P Gain\n");
  }

  /** End to end: "SET_KP <value>\n" sets the proportional gain and is
      answered 0; "SET_KP\n" alone reports the missing value and is answered
      -1. */
  lemma SetKpLine(value: string, app: App, libc: Libc)
    requires WellFormedApp(app) && IsWord(value)
    ensures ProcessCmd("SET_KP " + value + "\n", app, libc) == Reply(Accepted, None, Set(Kp, ScannedFloat(libc, value)))
  {
    var kp := "SET_KP";
    assert IsWord(kp);
    StrTokWord(kp, ' ', value + "\n");
    assert kp + [' '] + (value + "\n") == "SET_KP " + value + "\n";
    StrTokLastWord(value);
    SetKpAnswer("SET_KP " + value + "\n", app, libc);
  }

  /** The line "SET_KP\n" is refused with the missing-value error. */
  lemma BareSetKpRefused(app: App, libc: Libc)
    requires WellFormedApp(app)
    ensures ProcessCmd("SET_KP\n", app, libc) == Reply(Rejected, Some("Error:  Tokens - Set P Gain\n"), NoCall)
  {
    var kp := "SET_KP";
    assert IsWord(kp);
    StrTokLastWord(kp);
    assert kp + "\n" == "SET_KP\n";
    assert StrTok([]).None?;
    SetKpAnswer("SET_KP\n", app, libc);
  }

  /** GET_PROBE_TEMP answers with the temperature exactly for a channel in
      [0, 10), and reports an error only when no channel is given. */
  lemma ProbeTempRange(line: string, app: App, libc: Libc)
    requires WellFormedApp(app) && StrTok(line).Some?
    requires CaseInsensitiveEqual(StrTok(line).value.0, "GET_PROBE_TEMP")
    ensures var o := ProcessCmd(line, app, libc);
      var arg := StrTok(StrTok(line).value.1);
      && o.Reply? && o.call == NoCall
      && (o.response != Rejected <==> arg.Some? && 0 <= ScannedInt(libc, arg.value.0) < NbrOfThermistors)
      && (o.response != Rejected ==>
            o.response == Data(libc.format(app.tempDegF[ScannedInt(libc, arg.value.0)]) + "\n"))
      && (o.error.Some? <==> arg.None?)
  {
    Dispatched(line, app, libc, CmdGetProbeTemp);
    HandleGetProbeTemp(StrTok(StrTok(line).value.1), app, libc);
  }

  /** The GET_PROBE_TEMP handler on its argument token. */
  lemma HandleGetProbeTemp(arg: Option<(string, string)>, app: App, libc: Libc)
    requires WellFormedApp(app)
    ensures var o := Handle(CmdGetProbeTemp, arg, app, libc);
      && o.Reply? && o.call == NoCall
      && (o.response != Rejected <==> arg.Some? && 0 <= ScannedInt(libc, arg.value.0) < NbrOfThermistors)
      && (o.response != Rejected ==>
            o.response == Data(libc.format(app.tempDegF[ScannedInt(libc, arg.value.0)]) + "\n"))
      && (o.error.Some? <==> arg.None?)
  {
    assert Handle(CmdGetProbeTemp, arg, app, libc) == GetProbeTemp(if arg.None? then None else Some(arg.value.0), app, libc);
  }

  // ---------------------------------------------------------------------
  // Reading a line from the input pipe

  /** The k-th fgetc result on a stream that ends after `stream`. */
  function Fgetc(stream: seq<char>, k: nat): char
  {
    if k < |stream| then stream[k] else EofChar
  }

  /** How many characters the read loop stores with room for `limit`: up to
      and including the first newline, or `limit` when none comes first. */
  function LineLength(stream: seq<char>, limit: nat, k: nat): (n: nat)
    requires 0 < limit && k < limit
    ensures k < n <= limit
    ensures forall j :: k <= j < n - 1 ==> Fgetc(stream, j) != '\n'
    ensures n < limit ==> Fgetc(stream, n - 1) == '\n'
    decreases limit - k
  {
    if Fgetc(stream, k) == '\n' || k + 1 == limit then k + 1 else LineLength(stream, limit, k + 1)
  }

  function LineRead(stream: seq<char>, limit: nat): (r: seq<char>)
    requires 0 < limit
    ensures 0 < |r| <= limit
  {
    var n := LineLength(stream, limit, 0);
    seq(n, j requires 0 <= j < n => Fgetc(stream, j))
  }

  /** g_in_buffer after the read loop as written: the characters read, and
      beyond them whatever the buffer held before; no terminator is
      written. */
  function AfterReadAsWritten(buf: seq<char>, stream: seq<char>): seq<char>
    requires |buf| == InBufferSize
  {
    var line := LineRead(stream, InBufferSize);
    line + buf[|line|..]
  }

  /** As written, a line shorter than the one before it inherits that
      line's leftover text.  The buffer here holds what the line
      "SET_KP 1.5\n" left: the value "1.5" at positions 7 to 9, followed by
      the NUL strtok wrote over the newline.  Reading "SET_KP\n" into it
      leaves "SET_KP\n1.5" to the tokenizer. */
  lemma StaleTailAsWritten(buf: seq<char>)
    requires |buf| == InBufferSize && buf[7..10] == "1.5" && buf[10] == NUL
    ensures CString(AfterReadAsWritten(buf, "SET_KP\n")) == "SET_KP\n1.5"
  {
    var stream := "SET_KP\n";
    assert LineLength(stream, InBufferSize, 6) == 7;
    assert LineLength(stream, InBufferSize, 0) == 7;
    assert LineRead(stream, InBufferSize) == stream;
    var after := AfterReadAsWritten(buf, stream);
    assert after == stream + buf[7..];
    assert buf[7..] == buf[7..10] + [buf[10]] + buf[11..];
    assert after == "SET_KP\n1.5" + [NUL] + buf[11..];
    assert NUL !in "SET_KP\n1.5";
    CStringOfTerminated("SET_KP\n1.5", buf[11..]);
  }

  /** The line "SET_KP 1.5\n" read into the zeroed buffer, with the NULs
      strtok writes over the delimiters after its two tokens, leaves the
      buffer StaleTailAsWritten starts from. */
  lemma FirstLineLeavesValue()
    ensures var buf := AfterReadAsWritten(seq(InBufferSize, _ => NUL), "SET_KP 1.5\n")[6 := NUL][10 := NUL];
      |buf| == InBufferSize && buf[7..10] == "1.5" && buf[10] == NUL
  {
    var stream := "SET_KP 1.5\n";
    assert LineLength(stream, InBufferSize, 10) == 11;
    assert LineLength(stream, InBufferSize, 0) == 11;
    assert LineRead(stream, InBufferSize) == stream;
  }

  /** So the second line is accepted and sets the gain from the stale
      "1.5", where "SET_KP\n" on its own is refused for its missing value. */
  lemma StaleLineAccepted(app: App, libc: Libc)
    requires WellFormedApp(app)
    ensures ProcessCmd("SET_KP\n1.5", app, libc) == Reply(Accepted, None, Set(Kp, ScannedFloat(libc, "1.5")))
    ensures ProcessCmd("SET_KP\n", app, libc) == Reply(Rejected, Some("Error:  Tokens - Set P Gain\n"), NoCall)
  {
    var kp := "SET_KP";
    assert IsWord(kp);
    StrTokWord(kp, '\n', "1.5");
    assert kp + ['\n'] + "1.5" == "SET_KP\n1.5";
    StrTokWhole("1.5");
    SetKpAnswer("SET_KP\n1.5", app, libc);
    BareSetKpRefused(app, libc);
  }

  /** The corrected read: stop one character earlier and terminate the line,
      so the C string seen by the tokenizer is the line just read. */
  function AfterRead(buf: seq<char>, stream: seq<char>): seq<char>
    requires |buf| == InBufferSize
  {
    var line := LineRead(stream, InBufferSize - 1);
    line + [NUL] + buf[|line| + 1..]
  }

  /** Whatever the buffer held before, the corrected read leaves exactly the
      new line for the tokenizer. */
  lemma ReadLineTerminated(buf: seq<char>, stream: seq<char>)
    requires |buf| == InBufferSize
    ensures |AfterRead(buf, stream)| == InBufferSize
    ensures CString(AfterRead(buf, stream)) == CString(LineRead(stream, InBufferSize - 1))
  {
    var line := LineRead(stream, InBufferSize - 1);
    CStringOfTerminated(line, buf[|line| + 1..]);
  }

  /** With the corrected read the stale tail is gone: "SET_KP\n" is refused
      for its missing value whatever the buffer held before. */
  lemma CorrectedReadRefusesBareSetKp(buf: seq<char>, app: App, libc: Libc)
    requires |buf| == InBufferSize && WellFormedApp(app)
    ensures ProcessCmd(CString(AfterRead(buf, "SET_KP\n")), app, libc)
      == Reply(Rejected, Some("Error:  Tokens - Set P Gain\n"), NoCall)
  {
    BareSetKpRead(buf);
    BareSetKpRefused(app, libc);
  }

  /** With the corrected read the line "SET_KP\n" is read back alone. */
  lemma BareSetKpRead(buf: seq<char>)
    requires |buf| == InBufferSize
    ensures CString(AfterRead(buf, "SET_KP\n")) == "SET_KP\n"
  {
    var stream := "SET_KP\n";
    assert LineLength(stream, InBufferSize - 1, 6) == 7;
    assert LineLength(stream, InBufferSize - 1, 0) == 7;
    assert LineRead(stream, InBufferSize - 1) == stream;
    ReadLineTerminated(buf, stream);
    assert NUL !in stream;
    CStringOfTerminated(stream, []);
  }

  // ---------------------------------------------------------------------
  // The buffers of the two pipe threads

  /** g_in_buffer, the C strings last copied into g_out_buffer and
      g_err_buffer, and their pending byte counts g_write_data_bytes and
      g_write_error_data_bytes. */
  class Pipes {
    const inBuffer: array<char>
    var outBuffer: string
    var writeDataBytes: int
    var errBuffer: string
    var writeErrorDataBytes: int

    ghost predicate Valid()
      reads this
    {
      && inBuffer.Length == InBufferSize
      && 0 <= writeDataBytes <= |outBuffer|
      && 0 <= writeErrorDataBytes <= |errBuffer|
    }

    /** The zeroed static buffers and counts. */
    constructor ()
      ensures Valid() && fresh(inBuffer)
      ensures inBuffer[..] == seq(InBufferSize, _ => NUL)
      ensures outBuffer == [] && writeDataBytes == 0 && errBuffer == [] && writeErrorDataBytes == 0
    {
      inBuffer := new char[InBufferSize](_ => NUL);
      outBuffer, writeDataBytes := [], 0;
      errBuffer, writeErrorDataBytes := [], 0;
    }

    /** The read loop of File_Fifo_Service_Input as written. */
    method ReadLineAsWritten(stream: seq<char>) returns (rdIndex: nat)
      requires Valid()
      modifies inBuffer
      ensures Valid()
      ensures inBuffer[..] == AfterReadAsWritten(old(inBuffer[..]), stream)
      ensures rdIndex == |LineRead(stream, InBufferSize)|
    {
      ghost var before := inBuffer[..];
      ghost var n := LineLength(stream, InBufferSize, 0);
      rdIndex := 0;
      inBuffer[0] := NUL;
      var ch := Fgetc(stream, rdIndex);
      inBuffer[rdIndex] := ch;
      rdIndex := rdIndex + 1;
      while ch != '\n' && rdIndex < InBufferSize
        invariant 0 < rdIndex <= n
        invariant forall j :: 0 <= j < rdIndex ==> inBuffer[j] == Fgetc(stream, j)
        invariant forall j :: rdIndex <= j < InBufferSize ==> inBuffer[j] == before[j]
        invariant ch == Fgetc(stream, rdIndex - 1)
        decreases InBufferSize - rdIndex
      {
        ch := Fgetc(stream, rdIndex);
        inBuffer[rdIndex] := ch;
        rdIndex := rdIndex + 1;
      }
      assert rdIndex == n;
      assert inBuffer[..] == AfterReadAsWritten(before, stream);
    }

    /** The corrected read loop: at most 1023 characters, then a NUL. */
    method ReadLine(stream: seq<char>) returns (rdIndex: nat)
      requires Valid()
      modifies inBuffer
      ensures Valid()
      ensures inBuffer[..] == AfterRead(old(inBuffer[..]), stream)
      ensures rdIndex == |LineRead(stream, InBufferSize - 1)|
    {
      ghost var before := inBuffer[..];
      ghost var n := LineLength(stream, InBufferSize - 1, 0);
      rdIndex := 0;
      var ch := Fgetc(stream, rdIndex);
      inBuffer[rdIndex] := ch;
      rdIndex := rdIndex + 1;
      while ch != '\n' && rdIndex < InBufferSize - 1
        invariant 0 < rdIndex <= n
        invariant forall j :: 0 <= j < rdIndex ==> inBuffer[j] == Fgetc(stream, j)
        invariant forall j :: rdIndex <= j < InBufferSize ==> inBuffer[j] == before[j]
        invariant ch == Fgetc(stream, rdIndex - 1)
        decreases InBufferSize - rdIndex
      {
        ch := Fgetc(stream, rdIndex);
        inBuffer[rdIndex] := ch;
        rdIndex := rdIndex + 1;
      }
      assert rdIndex == n;
      inBuffer[rdIndex] := NUL;
      assert inBuffer[..] == AfterRead(before, stream);
    }

    /** File_Fifo_Respond: strcpy the response and make strlen of it
        pending. */
    method Respond(response: string)
      requires Valid()
      modifies this`outBuffer, this`writeDataBytes
      ensures Valid()
      ensures outBuffer == CString(response) && writeDataBytes == |CString(response)|
    {
      outBuffer := CString(response);
      writeDataBytes := |outBuffer|;
    }

    /** File_Fifo_Report_Error. */
    method ReportError(error: string)
      requires Valid()
      modifies this`errBuffer, this`writeErrorDataBytes
      ensures Valid()
      ensures errBuffer == CString(error) && writeErrorDataBytes == |CString(error)|
    {
      errBuffer := CString(error);
      writeErrorDataBytes := |errBuffer|;
    }

    /** One pass of the loop of File_Fifo_Service_Output: write the pending
        bytes to the output pipe one by one and clear the count. */
    method ServiceOutput() returns (written: string)
      requires Valid()
      modifies this`writeDataBytes
      ensures Valid()
      ensures written == old(outBuffer[..writeDataBytes])
      ensures writeDataBytes == 0
    {
      written := [];
      if writeDataBytes > 0 {
        var i := 0;
        while i < writeDataBytes
          invariant 0 <= i <= writeDataBytes
          invariant written == outBuffer[..i]
        {
          written := written + [outBuffer[i]];
          i := i + 1;
        }
        writeDataBytes := 0;
      }
    }

    /** One pass of the loop of File_Fifo_Service_Input, with the corrected
        read: read a line, process it, and leave its response (and error
        text) pending. */
    method ServiceInput(stream: seq<char>, app: App, libc: Libc) returns (o: Outcome)
      requires Valid() && WellFormedApp(app)
      modifies inBuffer, this`outBuffer, this`writeDataBytes, this`errBuffer, this`writeErrorDataBytes
      ensures Valid()
      ensures o == ProcessCmd(CString(LineRead(stream, InBufferSize - 1)), app, libc)
      ensures inBuffer[..] == AfterRead(old(inBuffer[..]), stream)
      ensures o.Reply? ==> outBuffer == CString(o.response) && writeDataBytes == |outBuffer|
      ensures o.Reply? && o.error.Some? ==> errBuffer == CString(o.error.value) && writeErrorDataBytes == |errBuffer|
      ensures !(o.Reply? && o.error.Some?) ==>
        errBuffer == old(errBuffer) && writeErrorDataBytes == old(writeErrorDataBytes)
      ensures o.NullDereference? ==> outBuffer == old(outBuffer) && writeDataBytes == old(writeDataBytes)
    {
      ghost var before := inBuffer[..];
      var _ := ReadLine(stream);
      ReadLineTerminated(before, stream);
      o := ProcessCmd(CString(inBuffer[..]), app, libc);
      if o.Reply? {
        if o.error.Some? {
          ReportError(o.error.value);
        }
        Respond(o.response);
      }
    }
  }
}
