# yarvi host/target bridge and firmware text routines in Dafny

yarvi is a small RISC-V soft core. Its host tools load and dump the target's memory over a byte channel to a debug monitor. They speak a tiny command protocol:

- `a` followed by a 4-byte address sets the cursor;
- `w` followed by a 4-byte word stores that word at the cursor;
- `R` asks the target for 8 bytes, and `r` for 4.

This project models two host-side bridges and the text routines of three firmware programs:

- **`htif-jtag`** (`sw/htif-jtag.cpp`) talks to the target through the vendor JTAG UART library.
  - It gathers the bytes it sends in a 16 KiB coalescing buffer, drained when full or when a flush is forced.
  - It moves every byte through retry loops that survive "not ready" (0) and "broken" (negative, which means close, reopen and retry) answers.
  - Its `main` runs `write ADDR` and `read ADDR LEN` operations left to right.
- **`htif-serial`** (`sw/htif/htif-serial.c`) is the same protocol over a serial port.
  - `read_from_yarvi` pipelines `R`/`r` requests: it sends the next request before consuming the current answer.
  - `read4` gathers exactly four bytes.
  - `fromhex` accepts only a fully consumed base-16 argument.
- **The firmware programs** (`BeMicroCV-A9/demo.c`, `hw.c`, `hello_world/hello_world.c`) are bare-metal text routines:
  - C-string output;
  - upper- and lower-case hexadecimal output;
  - the `readline` line editor, with backspace, bounded printable append and echo;
  - the LF to CR LF expansion of `my_puts`.

## Structure

- `words.dfy` (`Words`) holds 32-bit words and their 4-byte little-endian form, hex digits of a number, and small sequence and arithmetic facts.
- `strtol.dfy` (`Strtol`) models the C library's `strtol(s, &end, 16)` as both bridges call it:
  - leading white space, a sign and an optional `0x` are accepted;
  - the value saturates at the 64-bit `long` range;
  - the result is truncated to `uint32_t`.
- `protocol.dfy` (`Protocol`) defines the command alphabet, its byte encoding with a decoder proved its inverse, and the command streams of each operation.
- `atlantic.dfy` (`Atlantic`) is the JTAG transport as an oracle:
  - a `Link` object answers from a finite script of outcomes, then becomes perfect once the script is exhausted;
  - the retry protocol is a predicate over the log of calls;
  - lemmas derive from it what arrived, how much moved and how often the link was reopened.
- `htif_jtag.dfy` (`HtifJtag`) holds the `Bridge` class and the `main` driver:
  - `transmission` is an array;
  - `pending` and `total` are fields.
- `htif_serial.dfy` (`HtifSerial`) models the serial port as a log of sent and received bytes, together with the word, write and pipelined-read routines.
- `console.dfy` (`Console`) holds the UART of the firmware programs (characters out, bytes in) and C strings.
- `demo.dfy`, `hw.dfy` and `hello_world.dfy` hold the firmware routines.

### Observation on the JTAG read

`htif_cmd_read` always asks for whole 8-byte bursts, `ceil(len/8)` of them, but then reads only `len` bytes. `Protocol.JtagReadOwes` states the surplus: `(8 - len % 8) % 8` bytes that the target answers but this read does not take, for instance 4 bytes when a 32-bit aligned `len` is an odd number of words. The surplus stays in the channel. A later read of the same session takes it as the start of its own data: in `htif read A 4 read B 8`, the second `htif_read` returns the 4 surplus bytes of the first burst followed by the first 4 bytes answered for `B`. The serial bridge avoids this with its 4-byte `r` request. The model follows the JTAG code as written. Incoming bytes are one stream, and every read takes the next `len` of them, so `HtifJtag.Htif`'s output is the first `Demand` bytes of that stream, the surplus of earlier reads included.

## Model

| member | source | states |
|---|---|---|
| Words.WordRoundTrip | sw/htif/htif-serial.c:96-107 | a word read back from its 4 native-order bytes is the same word |
| Words.BytesRoundTrip | sw/htif/htif-serial.c:114-134 | the 4 bytes gathered by `read4` and reinterpreted as a word give back the same 4 bytes |
| Words.LowDigitsValue | hw.c:44-45 | the low `n` hex digits of `v`, most significant first, have value `v mod 16^n` |
| Strtol.Strtol16 | sw/htif-jtag.cpp:84 | the end index stays within the string; the value lies in the `long` range; no conversion means value 0; a conversion ends just after a hex digit and before a non-digit |
| Strtol.Saturate | sw/htif-jtag.cpp:84 | the magnitude is kept exactly when it fits in a `long` (negated for a minus sign), and the result is always within `long` |
| Strtol.ParseHex32 | sw/htif-jtag.cpp:80-86 | `parse_addr` accepts exactly the strings of the `HexArgument` grammar. These are the empty string (read as 0), or optional C white space, an optional sign, a `0x`/`0X` only when a digit follows, then one or more hex digits running to the end. Acceptance also means that `strtol`'s end position is the end of the string, and the value is the `long` truncated to 32 bits |
| Strtol.ConsumesAll | sw/htif-jtag.cpp:83-85 | `strtol` stops at the end of the string iff the string is in the `HexArgument` grammar |
| Strtol.ParseDigits | sw/htif-jtag.cpp:81-87 | a non-empty all-hex-digit string in the `long` range parses to its value mod 2^32 |
| Strtol.EmptyIsZero | sw/htif-jtag.cpp:86 | the empty string is accepted as 0, because `*p` is then the terminator |
| Strtol.TrailingJunkRefused | sw/htif-jtag.cpp:86 | digits followed by a non-digit are refused |
| Strtol.HexDigitChar | hw.c:39 | each digit value has a digit character (upper or lower case) that reads back as that value |
| Strtol.HexStringParses | hw.c:42-46 | the 8 lower-case digits of a word parse back to that word |
| Strtol.HexStringValue | hw.c:42-46 | the 8 digits of a word are hex digits whose value is the word |
| Protocol.Encode | sw/htif-jtag.cpp:90-109 | a command is 1 byte (burst request) or 5 bytes (opcode and word) |
| Protocol.EncodeAllAppend | sw/htif-jtag.cpp:17-51 | encoding distributes over concatenation of command streams |
| Protocol.DecodeEncode | sw/htif-jtag.cpp:89-116 | decoding the encoding of well-formed commands gives them back |
| Protocol.EncodeDecode | sw/htif-jtag.cpp:89-116 | whatever decodes is well formed and re-encodes to the same bytes, so the encoding is unambiguous |
| Protocol.WordWrites | sw/htif-jtag.cpp:93-101 | one `w` command per complete 4-byte word of input |
| Protocol.WordWritesPayload | sw/htif-jtag.cpp:93-101 | the words written are the input up to its last complete word, and take 5 bytes each; a trailing partial word sends nothing |
| Protocol.OwedRepeat | sw/htif-jtag.cpp:108-109 | k `R` requests ask for 8k bytes |
| Protocol.JtagReadOwes | sw/htif-jtag.cpp:104-113 | a JTAG read asks for `8*ceil(len/8)` bytes, `(8 - len%8)%8` more than it reads |
| Protocol.BurstExamples | sw/htif/htif-serial.c:161-173 | the burst chooser gives R,R,r for 20 bytes, R for 8, R,R for 16, r for 4 and nothing for 3 |
| Protocol.BurstsShape | sw/htif/htif-serial.c:161-173 | bursts total `len/4*4` (0 below 4); every burst but the last is 8; each is 8 or 4; the last is 4 exactly when `len % 8 >= 4` |
| Protocol.BurstCommands | sw/htif/htif-serial.c:161-173 | one request per burst |
| Protocol.BurstCommandsOwed | sw/htif/htif-serial.c:166-180 | the requests ask for exactly the bytes of the bursts and are well formed |
| Protocol.SerialReadOwes | sw/htif/htif-serial.c:152-182 | a serial read asks for `len/4*4` bytes (0 below 4); its commands are well formed and decode back from their bytes |
| Atlantic.Outcome | sw/jtaguart/software/jtag_atlantic.h:58-78 | a transport answer is between -1 and the bytes asked for; an exhausted script moves everything |
| Atlantic.Link.Write | sw/htif-jtag.cpp:23 | `jtagatlantic_write` answers from the script and logs the call with the bytes it was handed |
| Atlantic.Link.Read | sw/htif-jtag.cpp:60 | `jtagatlantic_read` delivers the next `Got(result)` incoming bytes at `p` and leaves the rest of the buffer alone |
| Atlantic.Link.Reopen | sw/htif-jtag.cpp:31-32 | close and reopen change nothing but the log |
| Atlantic.GoingThenFinishes | sw/htif-jtag.cpp:22-41 | retry iterations that progress and then finish form one finished transfer |
| Atlantic.FirstIteration | sw/htif-jtag.cpp:22-41 | one iteration accounts for its progress, and for one reopen per failure |
| Atlantic.FinishedWriteAccepted | sw/htif-jtag.cpp:19-41 | a finished write hands the transport exactly the bytes from `p` on, each once, in order; a failure counts as 0 and nothing accepted is resent |
| Atlantic.FinishedReadMoved | sw/htif-jtag.cpp:59-78 | a finished read moves exactly the `len - p` bytes still missing and hands nothing to the target |
| Atlantic.FinishedReopens | sw/htif-jtag.cpp:29-36 | a finished transfer reopened the link exactly once per failure |
| Atlantic.FinishedSuffixes | sw/htif-jtag.cpp:19-41 | every call asks for the whole remainder that follows what has already moved |
| Atlantic.Iteration | sw/htif-jtag.cpp:38-41 | a step never passes the end; it either keeps the loop going or finishes it |
| HtifJtag.Bridge.constructor | sw/htif-jtag.cpp:11-14 | the bridge starts with nothing pending, `total` 0 and nothing sent |
| HtifJtag.Bridge.Drain | sw/htif-jtag.cpp:19-42 | the pending bytes are transferred by the retry protocol, `pending` becomes 0, and `total` grows by exactly the bytes accepted |
| HtifJtag.Bridge.WriteOnce | sw/htif-jtag.cpp:23-40 | one attempt offers `transmission[p..pending]`; `total` grows by the non-negative progress; an exhausted script means everything goes |
| HtifJtag.Bridge.HtifWrite | sw/htif-jtag.cpp:17-51 | drains exactly when `(flush && pending) \|\| pending + len >= 16384`; after a drain the new data alone is pending, even with flush; otherwise it is appended to the buffered bytes; `pending` stays below 16384 for `len < 16384`; the total sent grows by the data |
| HtifJtag.Bridge.Append | sw/htif-jtag.cpp:45-46 | `memcpy` appends the data to the buffered bytes |
| HtifJtag.Bridge.HtifRead | sw/htif-jtag.cpp:53-79 | flushes every pending byte first, then fills `buf[..len]` with exactly the next `len` incoming bytes in order; `total` grows by what was flushed and read |
| HtifJtag.Bridge.Receive | sw/htif-jtag.cpp:59-78 | the read loop fills exactly `len` bytes by the retry protocol |
| HtifJtag.Bridge.ReadOnce | sw/htif-jtag.cpp:60-77 | one attempt extends the filled prefix by the non-negative progress |
| HtifJtag.Bridge.Put | sw/htif-jtag.cpp:89-90 | `htif_write(data, len, 0)` adds exactly the data to the bytes sent, takes nothing from the incoming bytes and leaves standard input and output alone |
| HtifJtag.Bridge.PutWords | sw/htif-jtag.cpp:92-101 | the `fread` loop sends `w` and the word for each complete 4-byte word of standard input, in order, and uses the input up |
| HtifJtag.Bridge.PutCommand | sw/htif-jtag.cpp:90-91 | an opcode and its 4-byte payload go out in order |
| HtifJtag.Bridge.CmdWrite | sw/htif-jtag.cpp:89-102 | sends `a`, the address, then `w` and a word for each complete word of the input, which is used up |
| HtifJtag.Bridge.PutBursts | sw/htif-jtag.cpp:108-109 | for `len <= 0x7FFF_FFF8` the loop on the `int` counter `n += 8` never overflows and sends `ceil(len/8)` `R` requests |
| HtifJtag.BurstCounterFits | sw/htif-jtag.cpp:104-109 | for an `int32_t` length, the counter's last value `8*ceil(len/8)` fits in an `int` iff `len <= 0x7FFF_FFF8` |
| HtifJtag.Bridge.CmdRead | sw/htif-jtag.cpp:104-116 | sends `a`, the address and `ceil(len/8)` `R`s, flushes, and outputs exactly the next `len` incoming bytes |
| HtifJtag.Bridge.RunOp | sw/htif-jtag.cpp:156-165 | one parsed operation sends its commands and outputs what it reads |
| HtifJtag.Bridge.Execute | sw/htif-jtag.cpp:157-171 | the command loop and the final flush leave the transport holding everything sent plus the commands of all operations, left to right, with nothing pending |
| HtifJtag.Bridge.Turn | sw/htif-jtag.cpp:156-165 | one turn of the command loop runs the first operation due, so the bytes sent, the output and the remaining incoming bytes of the whole session stay as predicted for the operations after it |
| HtifJtag.NextOp | sw/htif-jtag.cpp:158-169 | an operation recognised at the head of the arguments consumes no more arguments than there are |
| HtifJtag.PlanNext | sw/htif-jtag.cpp:157-169 | the operations are the first one recognised and then those after its arguments; none once one is not recognised |
| HtifJtag.SessionStep | sw/htif-jtag.cpp:157-169 | a session's bytes, reads and demand are those of its first operation followed by the rest |
| HtifJtag.WriteEncoding | sw/htif-jtag.cpp:89-102 | a write is `a`, the address bytes, then the word writes |
| HtifJtag.ReadEncoding | sw/htif-jtag.cpp:104-109 | a read is `a`, the address bytes, then `ceil(len/8)` `R` bytes |
| HtifJtag.SessionWellFormed | sw/htif-jtag.cpp:157-171 | every command a session sends is well formed, so the target can decode the stream |
| HtifJtag.PlanRender | sw/htif-jtag.cpp:157-171 | operations written out as arguments are recognised back, in order, whatever follows them |
| HtifJtag.VerboseFlag | sw/htif-jtag.cpp:133-138 | with a leading `-v` the commands are those of the rest of the arguments; without it, the word `-v` would stop the command loop before any command; a second `-v` is not stripped and stops the loop; `-v` alone runs no command (and, by `HtifJtag.Htif`, still succeeds, while no arguments at all fail) |
| HtifJtag.Htif | sw/htif-jtag.cpp:128-186 | fails iff there are no arguments or the device cannot be opened; otherwise the target receives exactly the encoded commands of the operations, decodable back to them, and the output is the bytes they read |
| HtifSerial.FromHex | sw/htif/htif-serial.c:84-94 | accepts exactly the strings of the `Strtol.HexArgument` grammar, with the same value as the JTAG bridge's `parse_addr`; otherwise a fatal error naming the argument |
| HtifSerial.FromHexWord | sw/htif/htif-serial.c:84-94 | the hex text of any word is accepted as that word |
| HtifSerial.FromHexJunk | sw/htif/htif-serial.c:90-91 | digits followed by junk are fatal |
| HtifSerial.ProjectAppend | sw/htif/htif-serial.c:166-181 | the bytes sent and received in a log split across its halves |
| HtifSerial.ReadOutcome | sw/htif/htif-serial.c:122-128 | a read answer is between -1 and what was asked for, it is negative exactly on an error, and an exhausted script delivers everything |
| HtifSerial.Port.Write | sw/htif/htif-serial.c:106 | `write` logs the bytes as sent |
| HtifSerial.Port.Read | sw/htif/htif-serial.c:122 | `read` delivers the next `Got(result)` bytes at `p`, reports `EAGAIN`, and leaves the rest of the buffer alone |
| HtifSerial.Write4 | sw/htif/htif-serial.c:96-107 | sends the 4 native-order bytes of the word |
| HtifSerial.Read4 | sw/htif/htif-serial.c:109-135 | gathers exactly the next 4 bytes into a word; `EAGAIN` is no progress; it fails iff a non-`EAGAIN` error was answered |
| HtifSerial.WriteToYarvi | sw/htif/htif-serial.c:137-150 | sends `a`, the address, then `w` and a word for each complete word of `data[..len]`; a trailing partial word and a negative `len` send no words |
| HtifSerial.StoreWord | sw/htif/htif-serial.c:175 | `*wp++ = w` puts the word's 4 bytes at `wp` and nothing else |
| HtifSerial.Fetch | sw/htif/htif-serial.c:175 | `*wp++ = read4(fd)` takes at most 4 incoming bytes; on success exactly the next 4 are stored at `wp` after the untouched prefix; nothing past `wp + 4` changes; it fails iff a read error was answered |
| HtifSerial.Collect | sw/htif/htif-serial.c:175-177 | an 8-byte answer takes two `read4`s and a 4-byte answer one, stored in order at `wp`, with nothing past the burst changed |
| HtifSerial.RequestBurst | sw/htif/htif-serial.c:161-173 | sends `R` when 8 or more bytes remain, else `r` when 4 or more remain, else nothing, and returns the size asked for |
| HtifSerial.ReadFromYarvi | sw/htif/htif-serial.c:152-182 | for `len >= 4`, the port sees `a`, the address and the pipelined schedule, and `data` receives exactly the next `len/4*4` bytes, which leave the port; `data` past `len/4*4` is untouched, even after a failure; it fails iff a read error was answered, and a failed run is a prefix of the schedule |
| HtifSerial.Pipeline | sw/htif/htif-serial.c:166-181 | the loop follows the pipelined schedule, stores every answered byte at increasing positions, consumes exactly the bursts' bytes from the port, and leaves `data` past the bursts untouched |
| HtifSerial.Round | sw/htif/htif-serial.c:167-180 | one pass sends the next request before it consumes the current answer |
| HtifSerial.PipeSent | sw/htif/htif-serial.c:161-181 | the requests sent, the first one included, are exactly the burst commands of `len` |
| HtifSerial.PipeReceived | sw/htif/htif-serial.c:166-181 | the bytes consumed are exactly the first `Sum(Bursts(len))` bytes to arrive, in order |
| HtifSerial.ScheduleSent | sw/htif/htif-serial.c:152-182 | the bytes sent by a read are the encoding of its commands |
| HtifSerial.ScheduleReceived | sw/htif/htif-serial.c:152-182 | the bytes consumed by a read are the first `len/4*4` to arrive |
| HtifSerial.ChooseBursts | sw/htif/htif-serial.c:161-173 | the size chosen is the smaller of 8 and what the bursts still owe |
| HtifSerial.PipeAhead | sw/htif/htif-serial.c:166-181 | at every point of the schedule, no more is consumed than was asked; no more than 16 bytes are outstanding; the next burst (up to 8 bytes) of what is still due is already requested |
| Console.CString | BeMicroCV-A9/demo.c:38 | the text of a C string is the NUL-free prefix before its first NUL |
| Console.LiteralText | hello_world/hello_world.c:20 | a string literal's text is what precedes the NUL the compiler adds |
| Console.Uart.Put | BeMicroCV-A9/demo.c:25-34 | once the device has room, the character is appended to the output |
| Console.Uart.Get | BeMicroCV-A9/demo.c:53-62 | once a byte has arrived, it is taken from the input |
| Demo.Nibble | BeMicroCV-A9/demo.c:42-45 | a digit value 0-15 becomes its upper-case hex digit, which reads back as the value |
| Demo.OutString | BeMicroCV-A9/demo.c:36-40 | the characters before the first NUL are output in order, the NUL is not |
| Demo.OutHex | BeMicroCV-A9/demo.c:47-51 | outputs exactly `len` upper-case digits, the low `len` nibbles of `v`, most significant first (nothing for `len <= 0`) |
| Demo.HexUpperParses | BeMicroCV-A9/demo.c:47-51 | those `len` digits parse back as `v mod 16^len` |
| Demo.Key | BeMicroCV-A9/demo.c:71-90 | one key keeps the line within `buf_size`, keeps it printable, and its echo turns the terminal's copy of the old line into the new one |
| Demo.KeyShown | BeMicroCV-A9/demo.c:71-90 | the echo of one key and of the keys after it compose on the terminal |
| Demo.NewlineAt | BeMicroCV-A9/demo.c:79 | the position of the first line feed |
| Demo.Edit | BeMicroCV-A9/demo.c:64-92 | the keys before the line feed keep the line within `buf_size` and printable; what the terminal shows of the echo is the stored line |
| Demo.DeleteLast | BeMicroCV-A9/demo.c:71-75 | DEL removes the last stored character, whatever it is, and echoes `\b \b`; on an empty line it stores and echoes nothing |
| Demo.DeleteUndoes | BeMicroCV-A9/demo.c:71-88 | DEL after a printable key that found room restores the line and the terminal's copy of it |
| Demo.Ignored | BeMicroCV-A9/demo.c:84-89 | a control byte, or a printable one when the line is full, changes nothing and echoes nothing |
| Demo.FullLine | BeMicroCV-A9/demo.c:84-88 | printable keys up to `buf_size` are all stored, in order |
| Demo.ReadLine | BeMicroCV-A9/demo.c:64-92 | the edited line is in `buf` followed by a NUL, possibly at index `buf_size`; the echo and then `\n` are output; the input is consumed up to and including the first line feed; the buffer past `buf_size` is untouched |
| Demo.Take | BeMicroCV-A9/demo.c:69-90 | one key either stores the edited prefix and echoes its echo, or is the line feed that writes the NUL and echoes `\n` |
| Demo.EditStep | BeMicroCV-A9/demo.c:68-91 | the editor after one key continues exactly as the editor over all keys |
| Hw.Nibble | hw.c:37-40 | a digit value 0-15 becomes its lower-case hex digit, which reads back as the value |
| Hw.OutString | hw.c:31-35 | the characters before the first NUL are output in order |
| Hw.OutHex | hw.c:42-46 | always exactly 8 characters: the i-th is the nibble `v >> (28 - 4i) & 15`, so the word's hex text, most significant first |
| HelloWorld.MyPuts | hello_world/hello_world.c:8-15 | the characters before the NUL are output in order, each LF as CR LF, and the NUL is not |
| HelloWorld.CrlfAppend | hello_world/hello_world.c:10-14 | the expansion works character by character |
| HelloWorld.CrlfLength | hello_world/hello_world.c:10-14 | the output is as long as the text plus its number of LFs |
| HelloWorld.UncrlfCrlf | hello_world/hello_world.c:11-13 | removing the CR before each LF gives the text back, so every other character, a CR included, is output unchanged and in order |
| HelloWorld.LfAfterCr | hello_world/hello_world.c:11-12 | every LF output comes right after a CR |

## Left out

- Timing: the `usleep` back-off in the retry loops, `clock_gettime` and the floating-point kB/s report. The waits are sleeps that change no state, and the report is floating point.
- The stderr diagnostics: always the "write failure"/"read failure" messages and `show_err`, and under `-v` the progress dots, `show_info`, the cable warning and the throughput report. They are stderr output only. The `-v` switch is modelled; its printing is not.
- The vendor JTAG UART library (`jtagatlantic_*`) is a foreign interface, so it is replaced by the scripted `Atlantic.Link`.
- `jtagatlantic_flush` after a forced write: its result only decides whether a diagnostic is printed.
- `jtagatlantic_open` after a failure is assumed to succeed. It asks for any device and any instance (`NULL, -1, -1`), while `main` first opened device 1, instance 0. One `Link` object stands for both handles, which assumes the reopen reaches the same JTAG UART and continues the same incoming stream.
- Atlantic.Link, HtifSerial.Port: the loops terminate because the scripted transport is perfect once its script is exhausted. This "eventually makes progress" assumption stands in for a real device.
- HtifJtag.Bridge.HtifRead, HtifJtag.Bridge.CmdRead, HtifSerial.ReadFromYarvi require that the peer eventually sends the bytes asked for; a real read would otherwise block for ever.
- Words.WordBytes fixes the native byte order as little-endian, the order of the hosts these tools run on.
- HtifJtag.Bridge: `total` is an unbounded integer. The C `int` would overflow after 2 GiB, but only the throughput report reads it.
- HtifJtag.Bridge.CmdRead, HtifJtag.Bridge.PutBursts and, through `OpFits`, HtifJtag.Htif require a read length of at most `0x7FFF_FFF8`. For the lengths `0x7FFF_FFF9` to `0x7FFF_FFFF` the burst loop's counter is still below `len` at `0x7FFF_FFF8`, and its next `n += 8` overflows a signed `int`, which C leaves undefined (`HtifJtag.BurstCounterFits`). A parsed length of 2^31 or more becomes negative in the `int32_t` parameter, and the code does not define what `malloc` and the loops then do.
- HtifJtag.Bridge.CmdWrite takes the whole of standard input as a byte sequence; `fread` errors are not modelled.
- HtifSerial.WriteToYarvi, HtifSerial.Write4, HtifSerial.ReadFromYarvi: the results of `write(2)` are ignored by the source, and the model treats every write as complete.
- HtifJtag.Bridge.CmdRead: `malloc(len)` is taken to succeed and gives a fresh array of `len` bytes; a `NULL` result and the `free` are not modelled.
- HtifSerial: termios setup (`set_interface_attribs`, `set_blocking`), `open`, `malloc` and the stdin/stdout plumbing of `main` are OS I/O. `main`'s dispatch on `read`/`write` is left out with them; its argument parsing is `HtifSerial.FromHex`.
- HtifSerial.ReadFromYarvi requires `len >= 4`. Below that `rs` is read uninitialised by the source, so its behaviour is undefined.
- HtifSerial.Read4 ends the run on a fatal error by returning `None` (the source calls `err`), and callers stop at once.
- BeMicroCV-A9/demo.c and hw.c `main`, `csr_read`, and the register polling of `serial_out_char`/`serial_in_char` are left out. The devices are the `Console.Uart` sequences. hello_world's `main` is an endless loop of `my_puts` and is left out too.
- Demo.OutHex requires `len <= 8`. For larger `len` the shift `28 - i*4` becomes 32 or more, which C leaves undefined.
- Demo.ReadLine requires `size < buf.Length`, because a full line's NUL is written at index `buf_size`. It also requires a line feed to arrive eventually. demo.c's own `main` calls `readline(buf, sizeof buf)`, which breaks the first requirement, but that call sits after an endless loop.
- Demo.Shown is a model of the terminal: an erase sequence `\b \b` removes the last character shown.
- The Verilog headers, the Verilator simulation drivers, the vendor library demos and `xula2.py` are not part of this model.
