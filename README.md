# smartmeterbridge-mqtt in Dafny

A model of the bridge between a smart meter's serial-to-TCP adapter and an MQTT topic (`bridge.go`). The process runs in one of two roles. A **publisher** reads the meter's line stream, frames it into telegrams and publishes each one. A **subscriber** receives telegrams and appends each one to a dated backup file. The model covers three parts of that program:

- **Telegram framer** (`framing.dfy`, module `Framing`). This is the scanner loop of `runPublisher`. `TelegramFramer` is a class with the loop's two variables: the `telegram` buffer (a `strings.Builder` in Go, a `string` here) and the `inTelegram` flag. `Feed` is one loop iteration. If the line starts with `/`, it sets the flag and resets the buffer. While the flag is set, it appends the line and a newline. If the line starts with `!`, it returns the buffer as the payload to publish and clears the flag. `RunPublisher` drives a fresh framer over the lines the scanner delivered and collects the published payloads. It is proved equal to the reference `Payloads`. `Payloads` is defined from `BufferOf`, a declarative description of the buffer: the lines from the last `/` line through the first `!` line after it. A ghost field `seen` and `Valid()` tie the class's two fields to `BufferOf` and `InTelegramOf` of the lines fed so far.
- **Backup writer** (`backup.dfy`, module `Backup`, with `decimal.dfy`, module `Decimal`). This is `saveTelegram`. The clock reading (`Stamp`) is a parameter. A path is a sequence of segments. The filesystem is the class `Disk`: a map from paths to file contents and a set of existing directories. `Disk.SaveTelegram` runs MkdirAll on `base/YYYY/MM`, opens `base/YYYY/MM/DD.log` to append (creating it if needed) and writes the record `[YYYY-MM-DD HH:MM:SS]\n` + payload + `\n`. Which step fails, if any, is an input (`Fault`). Each failure returns its own error. `Decimal.ZeroPad` is fmt's `%0Nd`, and `Decimal.Value` reads a numeral back.
- **Configuration checks and role dispatch** (`settings.dfy`, module `Settings`). `LoadConfig` holds the checks `loadConfig` applies after YAML decoding. `Start` is `main`'s switch on the role.

`results.dfy` holds the `Option`, `Result` and `Outcome` datatypes.

What the code does on a `!` line while no telegram is open follows from two facts. The loop publishes the buffer on every `!` line, whether or not a telegram is open. Only a `/` line resets the buffer. So a `!` line before any `/` line publishes the empty string, and a `!` line after a telegram has ended publishes that telegram again (`Framing.IdleEndRepublishes`).

## Model

| member | source | states |
|---|---|---|
| `Framing.TelegramFramer.constructor` | bridge.go:167-168 | the framer starts with an empty buffer, no telegram open and no lines seen |
| `Framing.TelegramFramer.Feed` | bridge.go:171-191 | one loop iteration: a `/` line resets the buffer to that line and opens a telegram; a line inside a telegram is appended with a newline; any other line leaves the buffer alone; a `!` line closes the telegram and is the only kind of line that returns a payload, namely the buffer after the line; the framer stays consistent with the reference after the lines seen so far |
| `Framing.RunPublisher` | bridge.go:166-198 | the payloads published for a line stream are exactly the reference `Payloads` of those lines, in order; the loop ends with a read error exactly when the scanner reported one |
| `Framing.Step` | bridge.go:173-191 | the reference buffer and flag after one more line follow from those before it exactly as the loop body updates them |
| `Framing.IdleLineNotBuffered` | bridge.go:179-181 | a line that is not a `/` line and arrives while no telegram is open leaves the buffer unchanged and no telegram open |
| `Framing.EndLineCloses` | bridge.go:183-190 | after any `!` line no telegram is open |
| `Framing.FramedPayload` | bridge.go:173-186 | a `!` line after the most recent `/` line, with no `!` line between them, publishes exactly the lines from that `/` line through the `!` line, each followed by a newline, in order |
| `Framing.RestartDiscards` | bridge.go:173-181 | a `/` line discards everything before it: the buffer and flag after `before + after` equal those after `after` alone, and the payloads are those of `before` followed by those of `after` |
| `Framing.IdleBufferIsLastPayload` | bridge.go:176-191 | once a telegram has been opened and closed again, the buffer still holds the last payload published |
| `Framing.IdleEndRepublishes` | bridge.go:176-191 | a `!` line while no telegram is open still publishes the buffer: the empty string before any `/` line, otherwise the last telegram again |
| `Framing.EndIndicesExact` | bridge.go:183-186 | the list of `!` line positions holds exactly the `!` lines, in strictly increasing order |
| `Framing.EmitOrder` | bridge.go:183-186 | for any buffer description, a loop that publishes the buffer at each `!` line publishes one value per `!` line, and the k-th is the buffer right after the k-th `!` line |
| `Framing.PublishOrder` | bridge.go:170-192 | the number of payloads equals the number of `!` lines; the k-th payload belongs to the k-th `!` line and is the buffer right after it |
| `Framing.ThreeLineTelegram` | bridge.go:170-191 | a `/` line, a plain line and a `!` line yield exactly one payload: the three lines, each followed by a newline |
| `Framing.SampleTelegram` | bridge.go:170-191 | the meter sample `/ISK5\0003`, `1-0:1.8.1(001234.567*kWh)`, `!A1B2` yields exactly one payload, the three lines each followed by a newline |
| `Decimal.Digits` | bridge.go:108 | `%d` of a number is a non-empty string of digits with no leading zero unless the number is zero |
| `Decimal.ValueOfDigits` | bridge.go:108 | reading back the `%d` numeral of a number gives the number |
| `Decimal.ZeroPad` | bridge.go:108 | `%0Nd` of a number is all digits and as long as the width or the unpadded numeral, whichever is longer |
| `Decimal.ZeroPadRoundTrip` | bridge.go:108 | reading back a zero-padded numeral gives the number |
| `Decimal.ZeroPadInjective` | bridge.go:116 | two numbers have the same zero-padded numeral exactly when they are equal |
| `Decimal.ZeroPadWidth` | bridge.go:108 | a number below 10^N takes exactly N characters under `%0Nd` |
| `Backup.DirPath` | bridge.go:108 | the day's directory is three segments: the base, then a numeral of at least four digits reading back as the year, then one of at least two digits reading back as the month |
| `Backup.FilePath` | bridge.go:116 | the day's file lies directly inside the day's directory, and its name is a numeral reading back as the day followed by `.log` |
| `Backup.Timestamp` | bridge.go:126 | the timestamp is at least 19 characters; for a valid reading with a four-digit year it is exactly 19, with `-`, `-`, a space, `:` and `:` at positions 4, 7, 10, 13 and 16 |
| `Backup.Record` | bridge.go:127 | the record is `[`, the timestamp, `]` and a newline, then the whole payload, then a final newline, and nothing else |
| `Backup.FilePathLayout` | bridge.go:108-116 | the backup file is `base/YYYY/MM/DD.log`: the base, then four digits reading back as the year, two as the month, and two as the day followed by `.log` |
| `Backup.SameFileIffSameDay` | bridge.go:108-116 | two clock readings map to the same backup file exactly when they fall on the same calendar day |
| `Backup.TimestampRoundTrip` | bridge.go:126 | the timestamp layout `2006-01-02 15:04:05` is 19 characters and reads back as the clock reading it was made from |
| `Backup.RecordRoundTrip` | bridge.go:126-127 | a record reads back as its clock reading and its payload, whatever the payload contains |
| `Backup.Appended` | bridge.go:119-129 | appending creates the file if it is absent: the new contents are the old contents (empty if absent) followed by the text, so the old contents are a prefix of the new, and every other file is unchanged |
| `Backup.Ancestors` | bridge.go:111 | MkdirAll makes every leading part of the directory path exist, and nothing else |
| `Backup.SameDayAppendsAccumulate` | bridge.go:116-127 | two saves on the same calendar day land in one file, the second record after the first, with nothing truncated |
| `Backup.Disk.SaveTelegram` | bridge.go:104-136 | a failing MkdirAll returns its own error and changes nothing; a failing open returns its own error after the directories exist and changes no file; a failing write leaves at most part of the record appended; otherwise the record is appended to the day's file and nothing else changes; every file stays inside an existing directory |
| `Settings.LoadConfig` | bridge.go:47-62 | an empty role becomes `publisher`; a role other than `publisher` or `subscriber` is rejected with `InvalidRole`; `subscriber` with an empty backup path is rejected with `MissingBackupPath`; everything else is accepted, and every accepted configuration has a known role and, as subscriber, a non-empty path |
| `Settings.Start` | bridge.go:201-218 | main starts the publisher exactly for an empty or `publisher` role and the subscriber exactly for `subscriber` with a backup path; the role started receives exactly the configuration loadConfig returned; a load error is reported as loadConfig returned it; the switch's unknown-role branch is never taken |

## Left out

- The TCP dial and the socket (bridge.go:139-145). These are I/O. `RunPublisher` takes the lines the scanner delivered and a flag saying whether the scanner ended with a read error.
- Line splitting by `bufio.Scanner` (bridge.go:166): its `\r` stripping and its token-size limit are library behaviour. A token that is too long ends the loop with a read error, which the `readError` flag stands for.
- The MQTT client: connect, publish, disconnect, subscribe, auto-reconnect and the connect and connection-lost callbacks (bridge.go:65-102, 151-163). This is a foreign library driven by callbacks. A publish is modelled as appending the payload to the `published` sequence. The publish token's error is never read (bridge.go:186), so the model has no publish outcome.
- The subscriber's message callback, which logs a failed save and carries on (bridge.go:75-79), and `select {}` (bridge.go:101). Concurrent callbacks and the property that concurrent appends do not interleave are concurrency and are not modelled.
- YAML decoding and `os.ReadFile` (bridge.go:37-45). This is a foreign library and I/O. The model starts from the decoded role and backup path. The other configuration fields (bridge host and port, broker, client id, topic, QoS, retain, verbose) are used only by the left-out I/O.
- `time.Now()` (bridge.go:105). The clock reading is a parameter. `ValidStamp` assumes the field ranges `time.Time` guarantees. The round-trip lemmas also require a year below 10000, where `%04d` is exactly four digits. `Stamp.year` is a `nat`, so negative years, which Go's `%04d` and the `2006` layout would print with a minus sign, are not modelled; `time.Now()` does not produce them.
- `filepath.Join` path cleaning and file permissions (bridge.go:108-123). A path is a sequence of segments, and the base path is one segment.
- Backup.Disk.SaveTelegram: a failing MkdirAll leaves the directory set unchanged. Directories it created before failing are not modelled. Whether a step fails is an input, so "MkdirAll on an existing directory succeeds" is not stated.
- Backup.Disk.SaveTelegram: a failing write is modelled as appending the first `written` characters of the record. The error from `file.Close()` is ignored by the source (bridge.go:123) and is not modelled.
- Logging, the `Verbose` flag, and the process exit of `log.Fatalf` (bridge.go:71-84, 131-133, 147-163, 204-217). `Settings.Start` returns what main would go on to do instead.
- Go strings are byte strings. The model uses `seq<char>`, which makes no difference to prefix tests, concatenation or formatting of ASCII digits.
