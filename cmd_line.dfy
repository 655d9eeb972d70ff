/** The ncurses console of cmd_line.c: the keystroke line editor of
    Cmd_Line_Get_Command, which edits the global g_cmd[MAX_CMD_LENGTH]
    through a static index, and Cmd_Line_Process, which picks the first
    command of the table that is a case-insensitive prefix of the line and
    dispatches on it.  Screen output, atof and atoi are not modelled: an
    action carries the parameter text the C code hands to atof or atoi. */
module CmdLine {
  import opened CStrings
  import opened Wrappers

  /** MAX_CMD_LENGTH: size of g_cmd, terminator included. */
  const MaxCmdLength: nat := 50

  /** getch results the editor distinguishes (ncurses values). */
  const Err: int := -1
  const KeyLeft: int := 0x104
  const KeyBackspace: int := 0x107
  const Newline: int := 10

  /** cmd_list, in table order; the position is the cmd_ids value. */
  const Commands: seq<string> :=
    ["HELP", "EXIT", "DEBUG=", "DEBUG?", "SETTEMP=", "SERVO!", "SERVO=", "KP=", "KI=", "KD=", "KL="]

  const CmdShowMenu: nat := 0
  const CmdExit: nat := 1
  const CmdToggleDebugFlag: nat := 2
  const CmdShowDebugFlags: nat := 3
  const CmdSetSetpoint: nat := 4
  const CmdToggleAutoServoControl: nat := 5
  const CmdSetServoPulseWidth: nat := 6
  const CmdSetKp: nat := 7
  const CmdSetKi: nat := 8
  const CmdSetKd: nat := 9
  const CmdSetKl: nat := 10

  // ---------------------------------------------------------------------
  // Command lookup and dispatch

  /** The test of the lookup loop: strncasecmp over the entry's length. */
  predicate Matches(i: nat, line: string)
    requires i < |Commands|
  {
    CaseInsensitivePrefix(Commands[i], line)
  }

  /** The lookup loop from entry k on: the first entry, in table order,
      that matches, or None when the loop runs off the table. */
  function LookupFrom(line: string, k: nat): (r: Option<nat>)
    requires k <= |Commands|
    ensures r.Some? ==> k <= r.value < |Commands| && Matches(r.value, line)
    ensures r.Some? ==> forall j :: k <= j < r.value ==> !Matches(j, line)
    ensures r.None? <==> forall j :: k <= j < |Commands| ==> !Matches(j, line)
    decreases |Commands| - k
  {
    if k == |Commands| then None
    else if Matches(k, line) then Some(k)
    else LookupFrom(line, k + 1)
  }

  function Lookup(line: string): (r: Option<nat>)
    ensures r.Some? ==> r.value < |Commands| && Matches(r.value, line)
    ensures r.Some? ==> forall j :: 0 <= j < r.value ==> !Matches(j, line)
    ensures r.None? <==> forall j :: 0 <= j < |Commands| ==> !Matches(j, line)
  {
    LookupFrom(line, 0)
  }

  /** Entries whose characters differ (up to case) at a common position are
      not prefixes of each other. */
  lemma DifferAt(p: string, q: string, k: nat)
    requires k < |p| && k < |q| && ToLower(p[k]) != ToLower(q[k])
    ensures !CaseInsensitivePrefix(p, q) && !CaseInsensitivePrefix(q, p)
  {
  }

  /** No entry of the table is a case-insensitive prefix of another. */
  lemma TablePrefixFree(i: nat, j: nat)
    requires i < |Commands| && j < |Commands| && i != j
    ensures !CaseInsensitivePrefix(Commands[i], Commands[j])
  {
    var p, q := Commands[i], Commands[j];
    if p[0] != q[0] {
      DifferAt(p, q, 0);
    } else if p[1] != q[1] {
      DifferAt(p, q, 1);
    } else if p[2] != q[2] {
      DifferAt(p, q, 2);
    } else {
      DifferAt(p, q, 5);
    }
  }

  /** Hence at most one entry matches any line. */
  lemma AtMostOneMatch(line: string, i: nat, j: nat)
    requires i < |Commands| && j < |Commands|
    requires Matches(i, line) && Matches(j, line)
    ensures i == j
  {
    if i != j {
      if |Commands[i]| <= |Commands[j]| {
        PrefixesNest(Commands[i], Commands[j], line);
        TablePrefixFree(i, j);
      } else {
        PrefixesNest(Commands[j], Commands[i], line);
        TablePrefixFree(j, i);
      }
    }
  }

  /** The lookup finds an entry exactly when that entry matches. */
  lemma LookupFindsMatch(line: string, i: nat)
    requires i < |Commands|
    ensures Lookup(line) == Some(i) <==> Matches(i, line)
  {
    if Matches(i, line) {
      AtMostOneMatch(line, i, Lookup(line).value);
    }
  }

  /** What the console does with a line. */
  datatype Action =
    | ShowMenu
    | Exit
    | NotImplemented
    | SetSetpoint(param: string)
    | SetServoPulseWidth(param: string)
    | SetKp(param: string)
    | SetKi(param: string)
    | SetKd(param: string)
    | SetKl(param: string)
    | NotFound(line: string)

  /** The switch on the command number, with p_param. */
  function ActionFor(i: nat, param: string): Action
    requires i < |Commands|
  {
    if i == CmdShowMenu then ShowMenu
    else if i == CmdExit then Exit
    else if i == CmdSetSetpoint then SetSetpoint(param)
    else if i == CmdSetServoPulseWidth then SetServoPulseWidth(param)
    else if i == CmdSetKp then SetKp(param)
    else if i == CmdSetKi then SetKi(param)
    else if i == CmdSetKd then SetKd(param)
    else if i == CmdSetKl then SetKl(param)
    else NotImplemented
  }

  /** Cmd_Line_Process on the C string in g_cmd: the matching entry's
      action with the text after the entry as parameter, or "Cmd not
      found" and nothing dispatched. */
  function Process(line: string): (a: Action)
    ensures a.NotFound? <==> forall i :: 0 <= i < |Commands| ==> !Matches(i, line)
    ensures a.NotFound? ==> a.line == line
    ensures forall i :: 0 <= i < |Commands| && Matches(i, line) ==>
      a == ActionFor(i, line[|Commands[i]|..])
  {
    var found := Lookup(line);
    assert forall i :: 0 <= i < |Commands| && Matches(i, line) ==> found == Some(i) by {
      forall i | 0 <= i < |Commands| && Matches(i, line) ensures found == Some(i) {
        LookupFindsMatch(line, i);
      }
    }
    match found
    case None => NotFound(line)
    case Some(i) => ActionFor(i, line[|Commands[i]|..])
  }

  /** The routes of the setter commands, whatever the case the user typed. */
  lemma SettersRoute(line: string)
    ensures CaseInsensitivePrefix("SETTEMP=", line) ==> Process(line) == SetSetpoint(line[8..])
    ensures CaseInsensitivePrefix("SERVO=", line) ==> Process(line) == SetServoPulseWidth(line[6..])
    ensures CaseInsensitivePrefix("KP=", line) ==> Process(line) == SetKp(line[3..])
    ensures CaseInsensitivePrefix("KI=", line) ==> Process(line) == SetKi(line[3..])
    ensures CaseInsensitivePrefix("KD=", line) ==> Process(line) == SetKd(line[3..])
    ensures CaseInsensitivePrefix("KL=", line) ==> Process(line) == SetKl(line[3..])
  {
    assert Commands[CmdSetSetpoint] == "SETTEMP=" && Commands[CmdSetServoPulseWidth] == "SERVO=";
    assert Commands[CmdSetKp] == "KP=" && Commands[CmdSetKi] == "KI=";
    assert Commands[CmdSetKd] == "KD=" && Commands[CmdSetKl] == "KL=";
  }

  // ---------------------------------------------------------------------
  // Line editing

  /** `(char)ch`: the low byte of the getch value. */
  function KeyChar(key: int): char
  {
    (key % 256) as char
  }

  /** A key the editor types into the line. */
  predicate IsTyped(key: int)
  {
    key != Err && key != Newline && key != KeyBackspace && key != KeyLeft
  }

  /** g_cmd and the static index. */
  datatype Editor = Editor(buf: seq<char>, index: int)

  /** One keystroke as written (cmd_line.c:99-119).  None stands for a
      write outside g_cmd: backspace clears g_cmd[index] and then decrements
      index with no lower bound, and `index < sizeof(g_cmd) - 1` compares as
      unsigned, so a negative index never passes it and the terminator is
      written at g_cmd[index]. */
  function KeyAsWritten(e: Editor, key: int): Option<Editor>
    requires |e.buf| == MaxCmdLength
  {
    if key == Err || key == Newline then Some(e)
    else if key == KeyBackspace || key == KeyLeft then
      if 0 <= e.index < MaxCmdLength then Some(Editor(e.buf[e.index := NUL], e.index - 1)) else None
    else
      var e' := if 0 <= e.index < MaxCmdLength - 1 then Editor(e.buf[e.index := KeyChar(key)], e.index + 1) else e;
      if 0 <= e'.index < MaxCmdLength then Some(Editor(e'.buf[e'.index := NUL], e'.index)) else None
  }

  function KeysAsWritten(e: Editor, keys: seq<int>): Option<Editor>
    requires |e.buf| == MaxCmdLength
    decreases |keys|
  {
    if keys == [] then Some(e)
    else match KeyAsWritten(e, keys[0])
      case None => None
      case Some(e') => if |e'.buf| == MaxCmdLength then KeysAsWritten(e', keys[1..]) else None
  }

  const EmptyLine: seq<char> := seq(MaxCmdLength, _ => NUL)

  /** As written, backspace on an empty line leaves index at -1, and the next
      key of any kind but newline writes g_cmd[-1], outside the buffer. */
  lemma BackspaceAtStartUnderflows()
    ensures KeyAsWritten(Editor(EmptyLine, 0), KeyBackspace) == Some(Editor(EmptyLine, -1))
    ensures KeyAsWritten(Editor(EmptyLine, -1), 'A' as int) == None
    ensures KeyAsWritten(Editor(EmptyLine, -1), KeyBackspace) == None
  {
    assert EmptyLine[0 := NUL] == EmptyLine;
  }

  /** The keys K, P, =, 1, 2 and then backspace. */
  const Kp12Keys: seq<int> := ['K' as int, 'P' as int, '=' as int, '1' as int, '2' as int, KeyBackspace]

  /** g_cmd after typing "KP=12" into an empty line. */
  const TypedKp12: seq<char> := EmptyLine[0 := 'K'][1 := 'P'][2 := '='][3 := '1'][4 := '2']

  /** A typed key with room left, as written: the character goes at index,
      the terminator after it. */
  lemma TypeAsWritten(buf: seq<char>, i: nat, key: int)
    requires |buf| == MaxCmdLength && i < MaxCmdLength - 1 && buf[i + 1] == NUL && IsTyped(key)
    ensures KeyAsWritten(Editor(buf, i), key) == Some(Editor(buf[i := KeyChar(key)], i + 1))
  {
    assert buf[i := KeyChar(key)][i + 1 := NUL] == buf[i := KeyChar(key)];
  }

  lemma TypingKp12AsWritten()
    ensures KeysAsWritten(Editor(EmptyLine, 0), Kp12Keys)
         == Some(Editor(TypedKp12, 4))
  {
    var keys := Kp12Keys;
    var b1 := EmptyLine[0 := 'K'];
    var b2 := b1[1 := 'P'];
    var b3 := b2[2 := '='];
    var b4 := b3[3 := '1'];
    TypeAsWritten(EmptyLine, 0, keys[0]);
    TypeAsWritten(b1, 1, keys[1]);
    TypeAsWritten(b2, 2, keys[2]);
    TypeAsWritten(b3, 3, keys[3]);
    TypeAsWritten(b4, 4, keys[4]);
    assert TypedKp12[5 := NUL] == TypedKp12;
    assert KeysAsWritten(Editor(TypedKp12, 5), keys[5..]) == Some(Editor(TypedKp12, 4));
    assert KeysAsWritten(Editor(b4, 4), keys[4..]) == Some(Editor(TypedKp12, 4));
    assert KeysAsWritten(Editor(b3, 3), keys[3..]) == Some(Editor(TypedKp12, 4));
    assert KeysAsWritten(Editor(b2, 2), keys[2..]) == Some(Editor(TypedKp12, 4));
    assert KeysAsWritten(Editor(b1, 1), keys[1..]) == Some(Editor(TypedKp12, 4));
  }

  lemma Kp12Read()
    ensures CString(TypedKp12) == "KP=12"
  {
    assert NUL !in "KP=12";
    CStringOfTerminated("KP=12", TypedKp12[6..]);
    assert TypedKp12 == "KP=12" + [NUL] + TypedKp12[6..];
  }

  lemma Kp12Processed()
    ensures Process("KP=12") == SetKp("12")
  {
    assert Commands[CmdSetKp] == "KP=";
    assert Matches(CmdSetKp, "KP=12");
  }

  /** Any buffer whose C string is "KP=12" is submitted as the gain
      command with "12". */
  lemma SubmitsKp12(buf: seq<char>)
    requires CString(buf) == "KP=12"
    ensures Process(CString(buf)) == SetKp("12")
  {
    Kp12Processed();
  }

  /** As written, backspace clears the terminator slot rather than the last
      character: "KP=12", backspace, newline submits "KP=12", so the gain is
      set from "12" although the screen showed "KP=1". */
  lemma BackspaceKeepsCharacter()
    ensures var r := KeysAsWritten(Editor(EmptyLine, 0), Kp12Keys);
      r.Some? && |r.value.buf| == MaxCmdLength && r.value.index == 4
      && CString(r.value.buf) == "KP=12"
      && Process(CString(r.value.buf)) == SetKp("12")
  {
    TypingKp12AsWritten();
    Kp12Read();
    SubmitsKp12(TypedKp12);
  }

  /** Corrected keystroke: backspace steps back first and clears the
      character it steps onto, and does nothing at the start of the line. */
  function KeyCorrected(e: Editor, key: int): (r: Editor)
    requires |e.buf| == MaxCmdLength && 0 <= e.index < MaxCmdLength
    ensures |r.buf| == MaxCmdLength && 0 <= r.index < MaxCmdLength
    ensures (e.index == 0 || e.buf[e.index] == NUL) ==> (r.index == 0 || r.buf[r.index] == NUL)
    ensures IsTyped(key) ==> r.buf[r.index] == NUL
  {
    if key == KeyBackspace || key == KeyLeft then
      if e.index > 0 then Editor(e.buf[e.index - 1 := NUL], e.index - 1) else e
    else if IsTyped(key) then
      if e.index < MaxCmdLength - 1 then Editor(e.buf[e.index := KeyChar(key)][e.index + 1 := NUL], e.index + 1)
      else Editor(e.buf[e.index := NUL], e.index)
    else e
  }

  function KeysCorrected(e: Editor, keys: seq<int>): (r: Editor)
    requires |e.buf| == MaxCmdLength && 0 <= e.index < MaxCmdLength
    ensures |r.buf| == MaxCmdLength && 0 <= r.index < MaxCmdLength
    ensures (e.index == 0 || e.buf[e.index] == NUL) ==> (r.index == 0 || r.buf[r.index] == NUL)
    decreases |keys|
  {
    if keys == [] then e else KeysCorrected(KeyCorrected(e, keys[0]), keys[1..])
  }

  /** The line the user sees being edited: typed characters are appended
      while fewer than 49 are on the line; backspace and left-arrow remove
      the last one. */
  function Edited(line: string, key: int): string
  {
    if key == KeyBackspace || key == KeyLeft then
      if line == [] then line else line[..|line| - 1]
    else if IsTyped(key) && |line| < MaxCmdLength - 1 then line + [KeyChar(key)]
    else line
  }

  function EditedAll(line: string, keys: seq<int>): string
    decreases |keys|
  {
    if keys == [] then line else EditedAll(Edited(line, keys[0]), keys[1..])
  }

  /** The corrected editor keeps the edited line in g_cmd[0..index-1] with
      the terminator at g_cmd[index]. */
  lemma KeyEdits(e: Editor, key: int)
    requires |e.buf| == MaxCmdLength && 0 <= e.index < MaxCmdLength && e.buf[e.index] == NUL
    ensures var r := KeyCorrected(e, key);
      r.buf[r.index] == NUL && r.buf[..r.index] == Edited(e.buf[..e.index], key)
  {
    var r := KeyCorrected(e, key);
    if (key == KeyBackspace || key == KeyLeft) && e.index > 0 {
      assert r.buf[..r.index] == e.buf[..e.index][..e.index - 1];
    } else if IsTyped(key) && e.index < MaxCmdLength - 1 {
      assert r.buf[..r.index] == e.buf[..e.index] + [KeyChar(key)];
    }
  }

  lemma {:induction false} KeysEdit(e: Editor, keys: seq<int>)
    requires |e.buf| == MaxCmdLength && 0 <= e.index < MaxCmdLength && e.buf[e.index] == NUL
    ensures var r := KeysCorrected(e, keys);
      r.buf[r.index] == NUL && r.buf[..r.index] == EditedAll(e.buf[..e.index], keys)
    decreases |keys|
  {
    if keys != [] {
      KeyEdits(e, keys[0]);
      KeysEdit(KeyCorrected(e, keys[0]), keys[1..]);
    }
  }

  /** After Enter the index is 0 over the kept previous line, so g_cmd[0]
      may still hold its first character.  Keys before the first typed one
      change nothing there (backspace and left-arrow stop at the start), and
      the first typed key puts the terminator after it: from then on the
      edited line, started empty, is in g_cmd[0..index-1]. */
  lemma {:induction false} AfterEnterEdits(e: Editor, keys: seq<int>)
    requires |e.buf| == MaxCmdLength && e.index == 0
    requires exists j :: 0 <= j < |keys| && IsTyped(keys[j])
    ensures var r := KeysCorrected(e, keys);
      r.buf[r.index] == NUL && r.buf[..r.index] == EditedAll([], keys)
    decreases |keys|
  {
    var j :| 0 <= j < |keys| && IsTyped(keys[j]);
    var e1 := KeyCorrected(e, keys[0]);
    if IsTyped(keys[0]) {
      assert e1.index == 1 && e1.buf[..1] == [KeyChar(keys[0])];
      assert Edited([], keys[0]) == [KeyChar(keys[0])];
      KeysEdit(e1, keys[1..]);
    } else {
      assert e1 == e && Edited([], keys[0]) == [];
      assert 0 < j && IsTyped(keys[1..][j - 1]);
      AfterEnterEdits(e, keys[1..]);
    }
  }

  /** Consequently the command processed is exactly the line as edited, when
      no key typed a NUL character: from a state with the terminator at
      index, or from the state after Enter (index 0 over the kept line) once
      some key types a character. */
  lemma CommandIsEditedLine(e: Editor, keys: seq<int>)
    requires |e.buf| == MaxCmdLength && 0 <= e.index < MaxCmdLength
    requires e.buf[e.index] == NUL || (e.index == 0 && exists j :: 0 <= j < |keys| && IsTyped(keys[j]))
    requires NUL !in EditedAll(e.buf[..e.index], keys)
    ensures CString(KeysCorrected(e, keys).buf) == EditedAll(e.buf[..e.index], keys)
  {
    var r := KeysCorrected(e, keys);
    if e.buf[e.index] == NUL {
      KeysEdit(e, keys);
    } else {
      AfterEnterEdits(e, keys);
      assert e.buf[..e.index] == [];
    }
    CStringOfTerminated(r.buf[..r.index], r.buf[r.index + 1..]);
    assert r.buf == r.buf[..r.index] + [NUL] + r.buf[r.index + 1..];
    assert r.buf[..r.index] == EditedAll(e.buf[..e.index], keys);
  }

  /** The edited line never holds more than 49 characters. */
  lemma {:induction false} EditedAllBounded(line: string, keys: seq<int>)
    requires |line| < MaxCmdLength
    ensures |EditedAll(line, keys)| < MaxCmdLength
    decreases |keys|
  {
    if keys != [] {
      EditedAllBounded(Edited(line, keys[0]), keys[1..]);
    }
  }

  /** g_cmd and the static index of Cmd_Line_Get_Command. */
  class Console {
    const cmd: array<char>
    var index: int

    ghost predicate Valid()
      reads this, cmd
    {
      cmd.Length == MaxCmdLength && 0 <= index < MaxCmdLength && (index == 0 || cmd[index] == NUL)
    }

    ghost function State(): Editor
      reads this, cmd
    {
      Editor(cmd[..], index)
    }

    /** The zeroed global buffer and index 0. */
    constructor ()
      ensures Valid() && fresh(cmd) && cmd[..] == EmptyLine && index == 0
    {
      cmd := new char[MaxCmdLength](_ => NUL);
      index := 0;
    }

    /** Cmd_Line_Get_Command, with the corrected backspace: apply the keys
        until a newline; on the newline the index goes back to 0 while g_cmd
        keeps the line for Cmd_Line_Process.  `keys` are the getch results
        (ERR included); it returns how many it consumed and whether a newline
        ended the line. */
    method GetCommand(keys: seq<int>) returns (consumed: nat, entered: bool)
      requires Valid()
      modifies this`index, cmd
      ensures Valid()
      ensures consumed <= |keys|
      ensures forall j :: 0 <= j < consumed && (j < consumed - 1 || !entered) ==> keys[j] != Newline
      ensures entered ==> consumed > 0 && keys[consumed - 1] == Newline && index == 0
      ensures !entered ==> consumed == |keys|
      ensures var r := KeysCorrected(old(State()), keys[..consumed]);
        cmd[..] == r.buf && (!entered ==> index == r.index)
    {
      consumed, entered := 0, false;
      ghost var start := State();
      while consumed < |keys| && !entered
        invariant Valid()
        invariant 0 <= consumed <= |keys|
        invariant forall j :: 0 <= j < consumed && (j < consumed - 1 || !entered) ==> keys[j] != Newline
        invariant entered ==> consumed > 0 && keys[consumed - 1] == Newline
        invariant State() == KeysCorrected(start, keys[..consumed])
        decreases |keys| - consumed, !entered
      {
        var ch := keys[consumed];
        assert keys[..consumed + 1] == keys[..consumed] + [ch];
        KeysSnoc(start, keys[..consumed], ch);
        if ch != Err {
          if ch == KeyBackspace || ch == KeyLeft {
            if index > 0 {
              index := index - 1;
              cmd[index] := NUL;
            }
          } else if ch == Newline {
            entered := true;
          } else {
            if index < MaxCmdLength - 1 {
              cmd[index] := KeyChar(ch);
              index := index + 1;
            }
            cmd[index] := NUL;
          }
        }
        consumed := consumed + 1;
      }
      if entered {
        index := 0;
      }
    }
  }

  /** Applying one more key to a run of keys. */
  lemma {:induction false} KeysSnoc(e: Editor, keys: seq<int>, key: int)
    requires |e.buf| == MaxCmdLength && 0 <= e.index < MaxCmdLength
    ensures KeysCorrected(e, keys + [key]) == KeyCorrected(KeysCorrected(e, keys), key)
    decreases |keys|
  {
    if keys == [] {
      assert [key][1..] == [];
    } else {
      assert (keys + [key])[1..] == keys[1..] + [key];
      KeysSnoc(KeyCorrected(e, keys[0]), keys[1..], key);
    }
  }
}
