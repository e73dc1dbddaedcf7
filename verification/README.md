# Universal Controller client: outgoing command encoder

This project models the command encoder of the Universal Controller Java
client (`uk.co.alphaowl.uc.UCCommand`). Each encoder is a static method that
builds one plain-text frame for the server. Fields are joined by the
separator `:` and every frame ends with the terminator `<EOC>`:

```
REGISTER:<name>                 <EOC>   name with every ':' removed
DEREGISTER:<playerId>           <EOC>
<playerId>:KEY_DOWN:<k1>:...:<kn><EOC>  keys joined by ':', not stripped
<playerId>:JOYSTICK:<x>:<y>     <EOC>
<playerId>:GYRO:<x>:<y>:<z>     <EOC>
```

Files:

- `wrappers.dfy`: the `Option` datatype.
- `text.dfy` (module `Text`): `Remove` is Java's `String.replace(":", "")`. `Join` joins fields with a separator. `Split` is a reference field splitter. `SplitJoin` and `JoinSplit` prove that `Split` and `Join` are inverses, so `Split` can be trusted to read a frame's fields.
- `decimal.dfy` (module `Decimal`): Java's decimal rendering of an `int`, as string concatenation produces it (`IntToString`). `ParseInt` reads its output back (`IntToStringRoundTrip`).
- `uc_command.dfy` (module `UCCommand`): the constants, the five encoders and the frame lemmas. `keyDownCmd` is modelled twice:
  - `KeyDownCmd` is a method with the source's `for` loop. It accumulates `cmd`.
  - `KeyDownFrame` is the function that specifies it.
  - `Fields(frame)` is the frame's text before `<EOC>`, split at every `:`. Each `...Fields` lemma states the exact field list of one kind of frame. That list fixes the layout, the field order and the separator count. `Fields` takes the frame's end to be its final `<EOC>`, so it reads the fields correctly only when the frame's end is already known. A `<EOC>` inside a name or key is not escaped, and a reader that stops at the first `<EOC>` would stop early (see below).

Player ids have the subset type `Int32`, the range of Java's `int`. Java's
`float` arguments are passed as `FloatText`, which is text in the alphabet
of Java's float-to-string conversion: digits, `.`, `-` and `E`, or `NaN`,
`Infinity` or `-Infinity`. The only fact the proofs use about such text is
that it never contains `:`.

Two points about the encoders that the lemmas make explicit:

- Unlike the player name, the keys of a key-down command are not stripped of
  `:`. `KeyDownKeepsSeparatorsInKeys` shows the result: the key `a:b` gives
  the same frame as the two keys `a` and `b`.
- Neither the player name nor the keys are stripped of the terminator
  `<EOC>`. `RegisterKeepsTerminatorInName` and `KeyDownKeepsTerminatorInKeys`
  show that such a name or first key puts a `<EOC>` into the frame before
  its end: for instance `RegisterCmd("a<EOC>b")` is `"REGISTER:a<EOC>b<EOC>"`.
- The joystick and gyro encoders make no range check on their components,
  so `JoystickCmd` and `GyroCmd` accept any `FloatText`.

## Model

| member | source | states |
|---|---|---|
| UCCommand.CommandConstants | src/main/java/uk/co/alphaowl/uc/UCCommand.java:5-20 | the terminator is "<EOC>" and holds no separator; the separator is ':'; the command keywords carry their separators exactly as the frames use them ("REGISTER:", "DEREGISTER:", ":KEY_DOWN:", ":JOYSTICK:", ":GYRO:") |
| UCCommand.ReplyTags | src/main/java/uk/co/alphaowl/uc/UCCommand.java:9-13 | the five reply tags have the server's spellings, are pairwise distinct and hold no separator, so each reads back as one field |
| Text.Remove | src/main/java/uk/co/alphaowl/uc/UCCommand.java:27 | the stripped name contains no separator and is no longer than the name |
| Text.RemoveCounts | src/main/java/uk/co/alphaowl/uc/UCCommand.java:27 | stripping takes away every separator and keeps every other character exactly as often as it occurred |
| Text.RemoveDropsOne | src/main/java/uk/co/alphaowl/uc/UCCommand.java:27 | a separator between two pieces of text disappears, leaving what stripping the two pieces joined directly gives |
| Text.RemoveAbsent | src/main/java/uk/co/alphaowl/uc/UCCommand.java:27 | a name without a separator is returned unchanged |
| Text.RemoveIdempotent | src/main/java/uk/co/alphaowl/uc/UCCommand.java:27 | stripping separators twice is the same as stripping once |
| Text.RemoveAppend | src/main/java/uk/co/alphaowl/uc/UCCommand.java:27 | stripping works piece by piece over a concatenation, so the kept characters stay in their order |
| Decimal.IntToString | src/main/java/uk/co/alphaowl/uc/UCCommand.java:35 | decimal rendering of an int is non-empty, starts with '-' exactly when the id is negative, and is otherwise digits with no leading zero (only "0" itself starts with '0'), so it holds no separator |
| Decimal.IntToStringRoundTrip | src/main/java/uk/co/alphaowl/uc/UCCommand.java:35 | reading the rendered id back gives the id |
| Decimal.IntToStringInjective | src/main/java/uk/co/alphaowl/uc/UCCommand.java:35 | distinct ids render as distinct text |
| UCCommand.RegisterCmd | src/main/java/uk/co/alphaowl/uc/UCCommand.java:25-28 | the register frame begins with "REGISTER:" and ends with "<EOC>" |
| UCCommand.RegisterFields | src/main/java/uk/co/alphaowl/uc/UCCommand.java:25-28 | the register frame reads back as exactly the fields "REGISTER" and the name with every ':' removed |
| UCCommand.RegisterHasOneSeparator | src/main/java/uk/co/alphaowl/uc/UCCommand.java:27 | whatever the name contains, the register frame holds exactly one ':' |
| UCCommand.RegisterKeepsPlainName | src/main/java/uk/co/alphaowl/uc/UCCommand.java:27 | a name without ':' appears verbatim: the frame is "REGISTER:" + name + "<EOC>" |
| UCCommand.RegisterDropsSeparator | src/main/java/uk/co/alphaowl/uc/UCCommand.java:27 | a name with a separator inside registers exactly as the name without it does |
| UCCommand.RegisterKeepsTerminatorInName | src/main/java/uk/co/alphaowl/uc/UCCommand.java:27 | only ':' is stripped: a name holding "<EOC>" puts a terminator into the frame before its end |
| UCCommand.RegisterAlice | src/main/java/uk/co/alphaowl/uc/UCCommand.java:27 | registering "Al:ice" sends "REGISTER:Alice<EOC>" |
| UCCommand.DeregisterCmd | src/main/java/uk/co/alphaowl/uc/UCCommand.java:33-36 | the deregister frame begins with "DEREGISTER:" and ends with "<EOC>" |
| UCCommand.DeregisterFields | src/main/java/uk/co/alphaowl/uc/UCCommand.java:33-36 | the deregister frame reads back as the fields "DEREGISTER" and the decimal id, and that field parses back to the id |
| UCCommand.DeregisterNegativeId | src/main/java/uk/co/alphaowl/uc/UCCommand.java:35 | a negative id such as -1 is sent with its sign: "DEREGISTER:-1<EOC>" |
| UCCommand.KeyDownFrame | src/main/java/uk/co/alphaowl/uc/UCCommand.java:38-49 | the key-down frame begins with the decimal id + ":KEY_DOWN:" and ends with "<EOC>" |
| UCCommand.KeyDownCmd | src/main/java/uk/co/alphaowl/uc/UCCommand.java:38-49 | the loop that appends each key, and a separator after every key but the last, builds exactly the id, ":KEY_DOWN:", the keys joined by ':' and "<EOC>" |
| UCCommand.KeyDownNoKeys | src/main/java/uk/co/alphaowl/uc/UCCommand.java:38-49 | with no keys the frame is the id + ":KEY_DOWN:<EOC>", read back as the id, "KEY_DOWN" and one empty field |
| UCCommand.KeyDownFields | src/main/java/uk/co/alphaowl/uc/UCCommand.java:38-49 | with one or more keys free of ':', the frame reads back as the id, "KEY_DOWN" and the keys themselves, in order |
| UCCommand.KeyDownSeparatorCount | src/main/java/uk/co/alphaowl/uc/UCCommand.java:41-46 | n keys free of ':' are joined with exactly n - 1 separators, and the whole frame holds n + 1 |
| UCCommand.KeyDownKeepsSeparatorsInKeys | src/main/java/uk/co/alphaowl/uc/UCCommand.java:42 | keys are not stripped: the key "a:b" gives the same frame as the keys "a" and "b" |
| UCCommand.KeyDownKeepsTerminatorInKeys | src/main/java/uk/co/alphaowl/uc/UCCommand.java:42 | keys are appended unchanged: a first key holding "<EOC>" puts a terminator into the frame before its end |
| Text.SplitJoin | src/main/java/uk/co/alphaowl/uc/UCCommand.java:41-46 | fields free of the separator that are joined as the loop joins them are read back exactly by splitting |
| Text.CountJoin | src/main/java/uk/co/alphaowl/uc/UCCommand.java:41-46 | joining n separator-free fields inserts exactly n - 1 separators |
| UCCommand.JoystickCmd | src/main/java/uk/co/alphaowl/uc/UCCommand.java:54-57 | the joystick frame begins with the decimal id + ":JOYSTICK:" and ends with "<EOC>"; any component value is accepted |
| UCCommand.JoystickFields | src/main/java/uk/co/alphaowl/uc/UCCommand.java:54-57 | the joystick frame reads back as exactly the id, "JOYSTICK", x and y, in argument order |
| UCCommand.GyroCmd | src/main/java/uk/co/alphaowl/uc/UCCommand.java:62-65 | the gyro frame begins with the decimal id + ":GYRO:" and ends with "<EOC>"; any component value is accepted |
| UCCommand.GyroFields | src/main/java/uk/co/alphaowl/uc/UCCommand.java:62-65 | the gyro frame reads back as exactly the id, "GYRO", x, y and z, in argument order |

## Left out

- Java's float-to-string conversion in `joystickCmd` and `gyroCmd` is not modelled. The components are taken as already-rendered `FloatText`. The proofs use only the fact that such text never contains `:`.
- Null arguments are not modelled. In Java, a null player name or a null key array throws a `NullPointerException`, and a null key is appended as the text `null`. Strings and sequences here are never null.
- The reply tags (`PLAYER_ID`, `PLAYER_NOT_FOUND`, `SERVER_SHUTDOWN`, `SERVER_FULL`, `INVALID_COMMAND`) are declared as constants only. Nothing in `UCCommand` or `UCClient` decodes replies.
- `uk.co.alphaowl.uc.UCClient` is not part of this model. It is a thin wrapper over an external socket library with a lazily created singleton using double-checked locking, and its `keyDown` sends an empty string without calling the encoder.
- The default-package `UCClient` is not part of this model. It holds only a server address and two port numbers, set by its double-checked-locking `init` methods; it has no socket and sends nothing.
- The callback interfaces `IUCCallback` and `IUCCallbacks` declare methods but contain no behaviour, so there is nothing to model.
- The exception classes `PlayerRegisteredException` and `PlayerNotRegisteredException` only construct messages, and neither `UCCommand` nor `UCClient` throws them.
- No reply decoding, registration gating, range validation, receive loop or callback dispatch is modelled, because neither `UCCommand` nor `UCClient` contains any of these.
