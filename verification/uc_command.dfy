/**
 * The outgoing command encoder of the Universal Controller client: each
 * operation builds one plain-text frame whose fields are joined by the
 * separator ':' and which ends with the terminator "<EOC>".
 *
 * Player ids are Java `int`s rendered in decimal. The float components
 * of joystick and gyro commands are taken as already-rendered text
 * (`FloatText`); only the frame layout is modelled, not float formatting.
 *
 * `Fields` is the reference reading of a frame: its text before the
 * terminator, split at every separator. The lemmas below state each
 * frame's fields, which fixes the layout, the field order and the
 * separator count.
 */
module UCCommand {
  import opened Text
  import opened Decimal
  import opened Wrappers

  /** Terminator that ends every frame. */
  const Delimiter: string := "<EOC>"
  /** Field separator. */
  const Separator: char := ':'

  // Reply tags sent by the server; nothing in the encoder uses them.
  const PlayerIdReply: string := "PLAYER_ID"
  const PlayerNotFoundReply: string := "PLAYER_NOT_FOUND"
  const ServerShutdownReply: string := "SERVER_SHUTDOWN"
  const ServerFullReply: string := "SERVER_FULL"
  const InvalidCmdReply: string := "INVALID_COMMAND"

  // Command keywords with their separators, as the frames use them.
  const RegisterPrefix: string := "REGISTER" + [Separator]
  const DeregisterPrefix: string := "DEREGISTER" + [Separator]
  const KeyDownTag: string := [Separator] + "KEY_DOWN" + [Separator]
  const JoystickTag: string := [Separator] + "JOYSTICK" + [Separator]
  const GyroTag: string := [Separator] + "GYRO" + [Separator]

  /**
   * The frame constants: a terminator without separators, and each command
   * keyword with the separators it carries into a frame.
   */
  lemma CommandConstants()
    ensures Delimiter == "<EOC>" && Separator == ':' && Separator !in Delimiter
    ensures RegisterPrefix == "REGISTER:" && DeregisterPrefix == "DEREGISTER:"
    ensures KeyDownTag == ":KEY_DOWN:" && JoystickTag == ":JOYSTICK:" && GyroTag == ":GYRO:"
  {
  }

  /** The reply tags are five distinct separator-free fields. */
  lemma ReplyTags()
    ensures PlayerIdReply == "PLAYER_ID" && PlayerNotFoundReply == "PLAYER_NOT_FOUND"
    ensures ServerShutdownReply == "SERVER_SHUTDOWN" && ServerFullReply == "SERVER_FULL"
    ensures InvalidCmdReply == "INVALID_COMMAND"
    ensures |{PlayerIdReply, PlayerNotFoundReply, ServerShutdownReply, ServerFullReply, InvalidCmdReply}| == 5
    ensures ColonFree([PlayerIdReply, PlayerNotFoundReply, ServerShutdownReply, ServerFullReply, InvalidCmdReply])
  {
  }

  /**
   * Text that Java's float-to-string conversion can produce: "NaN",
   * "Infinity", "-Infinity", or digits with '.', '-' and 'E'.
   */
  predicate IsFloatText(s: string) {
    s == "NaN" || s == "Infinity" || s == "-Infinity" ||
    (|s| > 0 && forall i :: 0 <= i < |s| ==> IsDigit(s[i]) || s[i] in ".-E")
  }

  type FloatText = s: string | IsFloatText(s) witness "0.0"

  /** The text of a frame before its terminator. */
  function Body(frame: string): string
    requires EndsWith(frame, Delimiter)
  {
    frame[..|frame| - |Delimiter|]
  }

  /** The fields a reader finds in a frame. */
  function Fields(frame: string): seq<string>
    requires EndsWith(frame, Delimiter)
  {
    Split(Body(frame), Separator)
  }

  predicate ColonFree(parts: seq<string>) {
    forall i :: 0 <= i < |parts| ==> Separator !in parts[i]
  }

  /** Java's float text never holds the separator. */
  lemma FloatTextIsColonFree(s: FloatText)
    ensures Separator !in s
  {
  }

  /**
   * A frame made of separator-free fields joined by separators, followed
   * by the terminator, reads back as exactly those fields.
   */
  lemma FieldsOfJoin(frame: string, parts: seq<string>)
    requires |parts| > 0 && ColonFree(parts)
    requires frame == Join(parts, Separator) + Delimiter
    ensures EndsWith(frame, Delimiter) && Fields(frame) == parts
  {
    assert Body(frame) == Join(parts, Separator);
    SplitJoin(parts, Separator);
  }

  /** Such a frame holds one separator fewer than it has fields. */
  lemma SeparatorsOfJoin(frame: string, parts: seq<string>)
    requires |parts| > 0 && ColonFree(parts)
    requires frame == Join(parts, Separator) + Delimiter
    ensures Count(frame, Separator) == |parts| - 1
  {
    CountJoin(parts, Separator);
    CountAppend(Join(parts, Separator), Delimiter, Separator);
  }

  /** Regrouping a concatenation of five strings. */
  lemma Reassoc(a: string, b: string, c: string, d: string, e: string)
    ensures a + b + c + d + e == a + (b + c + d) + e
  {
  }

  /** Regrouping a concatenation of three strings. */
  lemma Regroup(a: string, b: string, c: string)
    ensures a + b + c == a + (b + c)
  {
  }

  /**
   * A frame made of a prefix p, a payload b + d + a and a non-empty ending
   * e holds d right after p and b, before the frame's end.
   */
  lemma TerminatorInside(p: string, b: string, d: string, a: string, e: string)
    requires |e| > 0
    ensures var frame, end := p + (b + d + a) + e, |p| + |b| + |d|;
            end < |frame| && EndsWith(frame[..end], d)
  {
    var end := |p| + |b| + |d|;
    assert (p + (b + d + a) + e)[..end] == p + b + d;
  }

  /** Text that starts with b + d + a is b + d + (a + the rest). */
  lemma PrefixThen(j: string, x: string, b: string, d: string, a: string)
    requires StartsWith(j, x) && x == b + d + a
    ensures j == b + d + (a + j[|x|..])
  {
    assert j == j[..|x|] + j[|x|..];
  }

  lemma JoinTwo(a: string, b: string)
    ensures Join([a, b], Separator) == a + [Separator] + b
  {
    assert [a, b][..1] == [a];
  }

  lemma JoinThree(a: string, b: string, c: string)
    ensures Join([a, b, c], Separator) == a + [Separator] + b + [Separator] + c
  {
    assert [a, b, c][..2] == [a, b];
    JoinTwo(a, b);
  }

  lemma JoinFour(a: string, b: string, c: string, d: string)
    ensures Join([a, b, c, d], Separator)
            == a + [Separator] + b + [Separator] + c + [Separator] + d
  {
    assert [a, b, c, d][..3] == [a, b, c];
    JoinThree(a, b, c);
  }

  lemma JoinFive(a: string, b: string, c: string, d: string, e: string)
    ensures Join([a, b, c, d, e], Separator)
            == a + [Separator] + b + [Separator] + c + [Separator] + d + [Separator] + e
  {
    assert [a, b, c, d, e][..4] == [a, b, c, d];
    JoinFour(a, b, c, d);
  }

  // ---------------------------------------------------------------- register

  /** Register frame: the keyword, then the name with every separator removed. */
  function RegisterCmd(playerName: string): (frame: string)
    ensures StartsWith(frame, RegisterPrefix) && EndsWith(frame, Delimiter)
  {
    var frame := RegisterPrefix + Remove(playerName, Separator) + Delimiter;
    assert frame[..|RegisterPrefix|] == RegisterPrefix;
    frame
  }

  /** A register frame has exactly two fields: the keyword and the stripped name. */
  lemma RegisterFields(playerName: string)
    ensures Fields(RegisterCmd(playerName)) == ["REGISTER", Remove(playerName, Separator)]
  {
    var name := Remove(playerName, Separator);
    JoinTwo("REGISTER", name);
    FieldsOfJoin(RegisterCmd(playerName), ["REGISTER", name]);
  }

  /** Whatever the name holds, the frame holds exactly one separator. */
  lemma RegisterHasOneSeparator(playerName: string)
    ensures Count(RegisterCmd(playerName), Separator) == 1
  {
    var name := Remove(playerName, Separator);
    JoinTwo("REGISTER", name);
    SeparatorsOfJoin(RegisterCmd(playerName), ["REGISTER", name]);
  }

  /** A name without separators appears in the frame verbatim. */
  lemma RegisterKeepsPlainName(playerName: string)
    requires Separator !in playerName
    ensures RegisterCmd(playerName) == "REGISTER:" + playerName + "<EOC>"
  {
    RemoveAbsent(playerName, Separator);
  }

  /**
   * A separator inside the name is dropped: "Al:ice" registers as "Alice"
   * would.
   */
  lemma RegisterDropsSeparator(before: string, after: string)
    ensures RegisterCmd(before + [Separator] + after) == RegisterCmd(before + after)
  {
    RemoveDropsOne(before, after, Separator);
  }

  /**
   * The terminator is not stripped from a name: a name holding "<EOC>"
   * puts a terminator into the frame before its end.
   */
  lemma RegisterKeepsTerminatorInName(before: string, after: string)
    ensures var frame := RegisterCmd(before + Delimiter + after);
            var end := |RegisterPrefix| + |Remove(before, Separator)| + |Delimiter|;
            end < |frame| && EndsWith(frame[..end], Delimiter)
  {
    var p, d := RegisterPrefix, Delimiter;
    var b, a := Remove(before, Separator), Remove(after, Separator);
    RemoveAppend(before + d, after, Separator);
    RemoveAppend(before, d, Separator);
    RemoveAbsent(d, Separator);
    assert Remove(before + d + after, Separator) == b + d + a;
    TerminatorInside(p, b, d, a, d);
  }

  /** Registering "Al:ice" sends "REGISTER:Alice<EOC>". */
  lemma RegisterAlice()
    ensures RegisterCmd("Al:ice") == "REGISTER:Alice<EOC>"
  {
  }

  // -------------------------------------------------------------- deregister

  /** Deregister frame: the keyword, then the player id in decimal. */
  function DeregisterCmd(playerId: Int32): (frame: string)
    ensures StartsWith(frame, DeregisterPrefix) && EndsWith(frame, Delimiter)
  {
    var frame := DeregisterPrefix + IntToString(playerId) + Delimiter;
    assert frame[..|DeregisterPrefix|] == DeregisterPrefix;
    frame
  }

  /** A deregister frame has two fields, and the second reads back as the id. */
  lemma DeregisterFields(playerId: Int32)
    ensures Fields(DeregisterCmd(playerId)) == ["DEREGISTER", IntToString(playerId)]
    ensures ParseInt(Fields(DeregisterCmd(playerId))[1]) == Some(playerId as int)
  {
    var id := IntToString(playerId);
    JoinTwo("DEREGISTER", id);
    FieldsOfJoin(DeregisterCmd(playerId), ["DEREGISTER", id]);
    IntToStringRoundTrip(playerId);
  }

  /** A negative id such as -1 is rendered with its sign. */
  lemma DeregisterNegativeId()
    ensures DeregisterCmd(-1) == "DEREGISTER:-1<EOC>"
  {
  }

  // ---------------------------------------------------------------- key down

  /** Key-down frame: id, keyword, then the key strings joined by separators. */
  function KeyDownFrame(playerId: Int32, data: seq<string>): (frame: string)
    ensures StartsWith(frame, IntToString(playerId) + KeyDownTag) && EndsWith(frame, Delimiter)
  {
    var prefix := IntToString(playerId) + KeyDownTag;
    var frame := prefix + Join(data, Separator) + Delimiter;
    assert frame[..|prefix|] == prefix;
    frame
  }

  /** Builds the key-down frame by appending one key, then a separator unless it was the last. */
  method KeyDownCmd(playerId: Int32, data: seq<string>) returns (cmd: string)
    ensures cmd == KeyDownFrame(playerId, data)
  {
    var prefix := IntToString(playerId) + KeyDownTag;
    cmd := prefix;
    for i := 0 to |data|
      invariant cmd == prefix + Join(data[..i], Separator)
                       + (if 0 < i < |data| then [Separator] else [])
    {
      JoinTakeNext(data, i, Separator);
      assert cmd + data[i] == prefix + Join(data[..i + 1], Separator);
      cmd := cmd + data[i];
      if i != |data| - 1 {
        cmd := cmd + [Separator];
      }
    }
    assert data[..|data|] == data;
    cmd := cmd + Delimiter;
  }

  lemma KeyDownNoKeysIsJoin(playerId: Int32)
    ensures KeyDownFrame(playerId, [])
            == Join([IntToString(playerId), "KEY_DOWN", ""], Separator) + Delimiter
  {
    JoinThree(IntToString(playerId), "KEY_DOWN", "");
  }

  /** With no keys the payload is empty: a reader sees one empty key field. */
  lemma KeyDownNoKeys(playerId: Int32)
    ensures KeyDownFrame(playerId, []) == IntToString(playerId) + ":KEY_DOWN:<EOC>"
    ensures Fields(KeyDownFrame(playerId, [])) == [IntToString(playerId), "KEY_DOWN", ""]
  {
    var id := IntToString(playerId);
    assert KeyDownFrame(playerId, []) == id + KeyDownTag + Delimiter;
    Regroup(id, KeyDownTag, Delimiter);
    assert KeyDownTag + Delimiter == ":KEY_DOWN:<EOC>";
    KeyDownNoKeysIsJoin(playerId);
    FieldsOfJoin(KeyDownFrame(playerId, []), [IntToString(playerId), "KEY_DOWN", ""]);
  }

  /** With at least one key, the frame is the join of id, keyword and keys. */
  lemma KeyDownIsJoin(playerId: Int32, data: seq<string>)
    requires |data| > 0
    ensures KeyDownFrame(playerId, data)
            == Join([IntToString(playerId), "KEY_DOWN"] + data, Separator) + Delimiter
  {
    var id := IntToString(playerId);
    JoinTwo(id, "KEY_DOWN");
    JoinAppend([id, "KEY_DOWN"], data, Separator);
    Reassoc(id, [Separator], "KEY_DOWN", [Separator], Join(data, Separator));
  }

  /** Id and keyword hold no separator, so the fields do not when the keys do not. */
  lemma KeyDownFieldsColonFree(playerId: Int32, data: seq<string>)
    requires ColonFree(data)
    ensures ColonFree([IntToString(playerId), "KEY_DOWN"] + data)
  {
  }

  /** Separator-free keys come back out of the frame as they went in, in order. */
  lemma KeyDownFields(playerId: Int32, data: seq<string>)
    requires |data| > 0 && ColonFree(data)
    ensures Fields(KeyDownFrame(playerId, data)) == [IntToString(playerId), "KEY_DOWN"] + data
  {
    KeyDownIsJoin(playerId, data);
    KeyDownFieldsColonFree(playerId, data);
    FieldsOfJoin(KeyDownFrame(playerId, data), [IntToString(playerId), "KEY_DOWN"] + data);
  }

  /**
   * With n separator-free keys, the payload holds n - 1 separators and the
   * whole frame n + 1.
   */
  lemma KeyDownSeparatorCount(playerId: Int32, data: seq<string>)
    requires |data| > 0 && ColonFree(data)
    ensures Count(Join(data, Separator), Separator) == |data| - 1
    ensures Count(KeyDownFrame(playerId, data), Separator) == |data| + 1
  {
    CountJoin(data, Separator);
    KeyDownIsJoin(playerId, data);
    KeyDownFieldsColonFree(playerId, data);
    SeparatorsOfJoin(KeyDownFrame(playerId, data), [IntToString(playerId), "KEY_DOWN"] + data);
  }

  /**
   * Keys are not stripped of separators: a key "a:b" gives the same frame
   * as the two keys "a" and "b".
   */
  lemma KeyDownKeepsSeparatorsInKeys(playerId: Int32, a: string, b: string)
    ensures KeyDownFrame(playerId, [a + [Separator] + b]) == KeyDownFrame(playerId, [a, b])
  {
    JoinTwo(a, b);
  }

  /**
   * Keys are not stripped of the terminator either: a first key holding
   * "<EOC>" puts a terminator into the frame before its end.
   */
  lemma KeyDownKeepsTerminatorInKeys(playerId: Int32, data: seq<string>, before: string, after: string)
    requires |data| > 0 && data[0] == before + Delimiter + after
    ensures var frame := KeyDownFrame(playerId, data);
            var end := |IntToString(playerId) + KeyDownTag| + |before| + |Delimiter|;
            end < |frame| && EndsWith(frame[..end], Delimiter)
  {
    var p, d := IntToString(playerId) + KeyDownTag, Delimiter;
    var j := Join(data, Separator);
    JoinStartsWithFirst(data, Separator);
    var tail := j[|data[0]|..];
    PrefixThen(j, data[0], before, d, after);
    TerminatorInside(p, before, d, after + tail, d);
  }

  // ---------------------------------------------------------------- joystick

  /** Joystick frame: id, keyword, x, y; no range check on the components. */
  function JoystickCmd(playerId: Int32, x: FloatText, y: FloatText): (frame: string)
    ensures StartsWith(frame, IntToString(playerId) + JoystickTag) && EndsWith(frame, Delimiter)
  {
    var prefix := IntToString(playerId) + JoystickTag;
    var frame := prefix + x + [Separator] + y + Delimiter;
    assert frame[..|prefix|] == prefix;
    frame
  }

  lemma JoystickIsJoin(playerId: Int32, x: FloatText, y: FloatText)
    ensures JoystickCmd(playerId, x, y)
            == Join([IntToString(playerId), "JOYSTICK", x, y], Separator) + Delimiter
  {
    JoinFour(IntToString(playerId), "JOYSTICK", x, y);
  }

  /** A joystick frame has the four fields id, keyword, x, y, in that order. */
  lemma JoystickFields(playerId: Int32, x: FloatText, y: FloatText)
    ensures Fields(JoystickCmd(playerId, x, y)) == [IntToString(playerId), "JOYSTICK", x, y]
  {
    JoystickIsJoin(playerId, x, y);
    FloatTextIsColonFree(x);
    FloatTextIsColonFree(y);
    FieldsOfJoin(JoystickCmd(playerId, x, y), [IntToString(playerId), "JOYSTICK", x, y]);
  }

  // -------------------------------------------------------------------- gyro

  /** Gyro frame: id, keyword, x, y, z; no range check on the components. */
  function GyroCmd(playerId: Int32, x: FloatText, y: FloatText, z: FloatText): (frame: string)
    ensures StartsWith(frame, IntToString(playerId) + GyroTag) && EndsWith(frame, Delimiter)
  {
    var prefix := IntToString(playerId) + GyroTag;
    var frame := prefix + x + [Separator] + y + [Separator] + z + Delimiter;
    assert frame[..|prefix|] == prefix;
    frame
  }

  lemma GyroIsJoin(playerId: Int32, x: FloatText, y: FloatText, z: FloatText)
    ensures GyroCmd(playerId, x, y, z)
            == Join([IntToString(playerId), "GYRO", x, y, z], Separator) + Delimiter
  {
    JoinFive(IntToString(playerId), "GYRO", x, y, z);
  }

  /** A gyro frame has the five fields id, keyword, x, y, z, in that order. */
  lemma GyroFields(playerId: Int32, x: FloatText, y: FloatText, z: FloatText)
    ensures Fields(GyroCmd(playerId, x, y, z)) == [IntToString(playerId), "GYRO", x, y, z]
  {
    GyroIsJoin(playerId, x, y, z);
    FloatTextIsColonFree(x);
    FloatTextIsColonFree(y);
    FloatTextIsColonFree(z);
    FieldsOfJoin(GyroCmd(playerId, x, y, z), [IntToString(playerId), "GYRO", x, y, z]);
  }
}
