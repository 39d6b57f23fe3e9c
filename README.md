# rpi_bm part 12: GPIO register fields and the frame dispatcher

A Dafny model of the two parts of this bare-metal Raspberry Pi 4 program that hold
logic of their own.

- **GPIO (`gpio.c`)**. `gpio_call` is a read-modify-write of an N-bit field inside a
  32-bit memory-mapped register. It rejects an out-of-range pin or value before it
  touches memory. `gpio_set`, `gpio_clear` and `gpio_pull` specialise it.
  `gpio_setPinOutputBool` picks set or clear. `gpio_pin_set_func` writes a 3-bit
  function code into the ten-fields-per-word `func_select` bank.
  `gpio_pin_enable` runs the six-step pull-enable protocol, with two settle delays.
- **kernel.c**. `strncmp` compares NUL-terminated bytes up to a bound. `serve`
  classifies the application payload of each received frame and hands the reply to
  the TCP stack. `putc` turns a newline into a carriage return plus line feed.

Layout:

- `types.dfy` (`Types`): the C integer types and `Option`.
- `registers.dfy` (`Registers`): field operations on `bv32` words, written with the
  C operators.
- `gpio.dfy` (`Gpio`): the `Peripheral` class.
  - `mem` is the memory-mapped word space that `mmio_read`/`mmio_write` reach, a
    map from address to `bv32`. An absent address reads as 0.
  - `funcSelect`, `pupdEnable` and `pupdClocks` are the `REGS_GPIO` fields.
  - `trace` records every register access and every `delay`, in order.
  - `Replay` ties the trace back to the register state.
- `cstring.dfy` (`CString`): `strncmp` as the loop method `StrNCmp`, proved against
  the total specification `Compare`. `Compare` returns `None` when the comparison
  would read past the end of a string.
- `serve.dfy` (`Serve`): one pass of the `serve` loop.
  - `Classify` models the branch structure as written.
  - `Dispatch` states the same choice directly on the payload bytes.
  - `ServeFrame` models the hand-off to the stack.
- `console.dfy` (`Console`): `putc` on a `Uart` whose `sent` field records what
  `uart_send` was given.

Collaborators that are not part of this model become parameters of the model:

- `packetloop_arp_icmp_tcp` is represented by its result `datP`.
- `fill_tcp_data` is the function parameter `fill`.
- `www_server_reply` is the `Sent` result.
- `delay` is a `Wait` event in the trace.
- `uart_send` appends to `sent`.

The code differs from the intended request grammar, and the model follows the code:

- Line 100 tests `strncmp("echo ", …) != 0` for a payload already known to begin
  with `"GET "`. That test always succeeds, because `G` is not `e`.
- So every GET request is answered with the C string that starts five bytes into
  the payload. For `"GET / HTTP/1.1"` that is `" HTTP/1.1"`, not the "Hello world!"
  page.
- The root and non-root pages of lines 103-111 can never be chosen
  (`Serve.NeverServesAPage`).
- A payload `"echo hi there"` does not start with `"GET "`, so it gets the 401 page
  (`Serve.ExampleEcho`).
- The echo reads a C string out of the frame with no bound. `CStringAt` returns
  `None` when no NUL follows inside the frame, and `Classify` then yields
  `ReadsPastFrame` rather than inventing bytes from beyond the frame.

## Model

| member | source | states |
|---|---|---|
| `Gpio.Peripheral.GpioCall` | rpi_bm/part12/src/gpio.c:7-23 | Returns 1 exactly when the pin is at most `field_max` and the value fits `field_size` bits, else 0. On 0, memory and trace are unchanged. On 1, only the word at `base + (pin / (32/field_size)) * 4` changes (32-bit wrap). It is replaced by the old word with the field at `(pin % num_fields) * field_size` set to the value. The field reads back the value, and the bits outside it are unchanged. The trace gains one read and one write of that word. |
| `Gpio.FieldMask` | rpi_bm/part12/src/gpio.c:8 | `(1 << field_size) - 1` has exactly bits 0 to `field_size - 1` set. |
| `Gpio.NumFields` | rpi_bm/part12/src/gpio.c:13 | `32 / field_size` fields fit in a word, and one more field would not. |
| `Gpio.WordAddress` | rpi_bm/part12/src/gpio.c:13-14 | The register address is `base + (pin / num_fields) * 4` whenever that sum fits in 32 bits. |
| `Gpio.FieldShift` | rpi_bm/part12/src/gpio.c:13-15 | The field at `(pin % num_fields) * field_size` ends inside the 32-bit word, so it never straddles two words. |
| `Gpio.FieldShiftFits` | rpi_bm/part12/src/gpio.c:13-15 | `(pin % (32 / field_size)) * field_size + field_size <= 32` for every pin and every field size from 1 to 30. |
| `Gpio.OutsideFieldBits` | rpi_bm/part12/src/gpio.c:18 | Bit by bit, `word & ~(field_mask << shift)` has every bit inside the field at 0 and every bit outside it equal to the word's. |
| `Gpio.ReadModifyWrite` | rpi_bm/part12/src/gpio.c:17-20 | The clear followed by OR-ing in `value << shift` is the field update. Afterwards the field holds the value and the bits outside it are the word's old bits. |
| `Gpio.InsertFieldReadsBack` | rpi_bm/part12/src/gpio.c:17-20 | After the read-modify-write, the field holds the value written and every bit outside it is the old one. |
| `Gpio.InsertFieldKeepsBit` | rpi_bm/part12/src/gpio.c:18-19 | Each bit below or above the field keeps its old value. |
| `Gpio.FieldsOfPinsDisjoint` | rpi_bm/part12/src/gpio.c:13-15 | Two different pins that `gpio_call` sends to the same word own disjoint fields. |
| `Gpio.InsertFieldKeepsOtherPins` | rpi_bm/part12/src/gpio.c:13-20 | Writing one pin's field leaves every bit of another pin's field in the same word as it was. |
| `Gpio.Peripheral.MmioRead` | rpi_bm/part12/src/gpio.c:5 | Returns the word at the address (0 if it was never written) and changes no register. |
| `Gpio.Peripheral.MmioWrite` | rpi_bm/part12/src/gpio.c:4 | Replaces exactly the word at the address. |
| `Gpio.Peripheral.Set` | rpi_bm/part12/src/gpio.c:68 | `gpio_call(pin, value, GPSET0, 1, 53)`: pins above 53 or values above 1 are rejected with nothing written. Otherwise bit `pin % 32` of word `GPSET0 + (pin / 32) * 4` is set to the value. The trace gains one read and one write of that word, and the new state is their replay. |
| `Gpio.Peripheral.Clear` | rpi_bm/part12/src/gpio.c:69 | The same as `Set`, on the GPCLR words, with the same single read and write in the trace. |
| `Gpio.Peripheral.Pull` | rpi_bm/part12/src/gpio.c:79 | `gpio_call(pin, value, GPPUPPDN0, 2, 53)`: pins up to 53 and values up to 3 are accepted. Otherwise nothing is written. An accepted call writes the 2-bit field at `(pin % 16) * 2` of word `GPPUPPDN0 + (pin / 16) * 4`. The trace gains one read and one write of that word, and the new state is their replay. |
| `Gpio.PullAndSetExamples` | rpi_bm/part12/src/gpio.c:68-79 | Pin 5 pulls via word offset 0 at bit 10. Pin 20 pulls via word offset 4 at bit 8. Pin 53 sets via word offset 4 at bit 21. |
| `Gpio.Peripheral.SetPinOutputBool` | rpi_bm/part12/src/gpio.c:71-77 | A nonzero `onOrOff` writes 1 into the pin's GPSET bit, zero writes 1 into its GPCLR bit. A pin above 53 leaves memory and trace unchanged. A pin up to 53 adds one read and one write of the chosen word to the trace, and the new state is their replay. |
| `Gpio.FuncSelectIndex` | rpi_bm/part12/src/gpio.c:27 | `pin / 10` is the register whose ten fields hold the pin. |
| `Gpio.FuncSelectShift` | rpi_bm/part12/src/gpio.c:26 | `(pin * 3) % 30` equals `(pin % 10) * 3` and is at most 27. |
| `Gpio.FuncSelectShiftIsFieldIndex` | rpi_bm/part12/src/gpio.c:26 | `(p * 3) % 30 == (p % 10) * 3` for every natural `p`. |
| `Gpio.FuncSelectExamples` | rpi_bm/part12/src/gpio.c:26-27 | Pin 11 is register 1, bit 3. Pin 10 is register 1, bit 0. |
| `Gpio.FuncSelectMask` | rpi_bm/part12/src/gpio.c:30 | The literal mask 7 is the 3-bit field mask. |
| `Gpio.Peripheral.PinSetFunc` | rpi_bm/part12/src/gpio.c:25-34 | Only `func_select[pin / 10]` changes. Its 3-bit field at `(pin * 3) % 30` reads back `func`, and the bits outside the field are unchanged. The trace holds one read and one write of that register. |
| `Gpio.EnableProtocol` | rpi_bm/part12/src/gpio.c:36-43 | Six steps that touch only `pupd_enable` and `pupd_enable_clocks[pin / 32]`; every pause is the 150-unit settle time; the last two steps clear the control and then the clock register. |
| `Gpio.EnableProtocolAssertsOnlyThePin` | rpi_bm/part12/src/gpio.c:36-43 | Only the third step writes a nonzero clock value. That value goes to register `pin / 32` and has exactly bit `pin % 32` set. A 150-unit wait comes directly before it and directly after it. Every write to `pupd_enable` writes 0. |
| `Gpio.EnableProtocolEffect` | rpi_bm/part12/src/gpio.c:36-43 | Replaying the six steps leaves `pupd_enable` at 0 and `pupd_enable_clocks[pin / 32]` at 0, with every other register unchanged. |
| `Gpio.EnableProtocolExample` | rpi_bm/part12/src/gpio.c:39 | For pin 5 the clock write is `1 << 5` to register 0. |
| `Gpio.Peripheral.Delay` | rpi_bm/part12/src/gpio.c:38 | A delay changes no register and appends one `Wait` event. |
| `Gpio.Peripheral.PinEnable` | rpi_bm/part12/src/gpio.c:36-43 | The trace grows by exactly the six ordered steps of `EnableProtocol`. The only registers changed are `pupd_enable` and `pupd_enable_clocks[pin / 32]`, both left at 0, and the new state is the replay of those steps. |
| `CString.Compare` | rpi_bm/part12/src/kernel.c:12-25 | A defined result lies between -255 and 255, the range of a difference of two unsigned bytes. |
| `CString.StrNCmp` | rpi_bm/part12/src/kernel.c:12-25 | The loop that counts `n` down and advances both pointers returns exactly what `Compare` specifies, whenever the comparison stays inside both strings. |
| `CString.Span` | rpi_bm/part12/src/kernel.c:16-21 | The number of bytes examined is at most `n`. |
| `CString.TerminatedIsReadable` | rpi_bm/part12/src/kernel.c:16-21 | Each string must hold `n` bytes or contain a NUL. When both do, the comparison never runs past either string. |
| `CString.CompareNothing` | rpi_bm/part12/src/kernel.c:16-24 | `strncmp(s1, s2, 0) == 0` and nothing is read. |
| `CString.CompareSelf` | rpi_bm/part12/src/kernel.c:16-24 | A string compares equal to itself. |
| `CString.CompareZeroIff` | rpi_bm/part12/src/kernel.c:16-24 | The result is 0 if and only if the strings agree on their first `n` bytes, or agree up to and including a shared NUL before `n`. |
| `CString.CompareNonzero` | rpi_bm/part12/src/kernel.c:18-20 | A nonzero result is `u1 - u2` at the first differing position. The bytes before that position are equal and not NUL. |
| `CString.CompareAntisymmetric` | rpi_bm/part12/src/kernel.c:18-20 | `strncmp(b, a, n) == -strncmp(a, b, n)`, and both are defined in the same cases. |
| `CString.SpanStopsAtSharedNul` | rpi_bm/part12/src/kernel.c:21 | The comparison stops at the first NUL the two strings share. |
| `CString.SpanInside` | rpi_bm/part12/src/kernel.c:16-19 | Every byte examined exists in both strings. |
| `CString.CompareReadsOnlySpan` | rpi_bm/part12/src/kernel.c:16-21 | The result depends only on the bytes examined: strings that agree on those bytes give the same result and examine the same number of bytes. |
| `Serve.CStringAt` | rpi_bm/part12/src/kernel.c:101 | A C string found in the frame ends at a NUL inside the frame. |
| `Serve.CStringAtMeans` | rpi_bm/part12/src/kernel.c:101 | The string handed to `fill_tcp_data` is the non-NUL bytes from `buf[dat_p + 5]` up to the first NUL. It is `None` exactly when the frame holds no NUL from that point on. |
| `Serve.CStringAtIs` | rpi_bm/part12/src/kernel.c:101 | A run of non-NUL bytes that a NUL ends is the C string at its start. |
| `Serve.Classify` | rpi_bm/part12/src/kernel.c:94-112 | No request is seen if and only if `dat_p == 0`. |
| `Serve.ReplyText` | rpi_bm/part12/src/kernel.c:99-110 | An echo sends the C string as it is, with no HTTP header. The refusal starts with the `HTTP/1.0 401 Unauthorized` status line and both pages with `HTTP/1.0 200 OK`, each followed by the HTML content-type header. |
| `Serve.ServeFrame` | rpi_bm/part12/src/kernel.c:92-115 | The iteration is idle (nothing is framed or sent) if and only if `dat_p == 0`. A reply is sent exactly when the payload was classified. The frame and length given to `www_server_reply` are those `fill_tcp_data` returned for the classified reply text. |
| `Serve.CompareWithLiteral` | rpi_bm/part12/src/kernel.c:97-100 | Assume the literal has no NUL in its first `n` bytes. `strncmp(literal, t, n)` is 0 exactly when `t` begins with those bytes. It runs past `t` exactly when `t` ends while still agreeing with them. |
| `Serve.PrefixTests` | rpi_bm/part12/src/kernel.c:97-100 | The `"GET "` test is 0 exactly when the payload begins with `GET `. A payload that does begin with `GET ` makes the `"echo "` test nonzero (`'e' - 'G'`). |
| `Serve.ClassifyIsDispatch` | rpi_bm/part12/src/kernel.c:94-112 | The branch structure as written equals the following: a `GET ` payload is echoed from five bytes on; a payload ending inside `GET ` is read past; any other payload gets the 401 page. |
| `Serve.NeverServesAPage` | rpi_bm/part12/src/kernel.c:100-111 | The root ("Hello world!") and non-root ("Goodbye cruel world.") branches are unreachable. |
| `Serve.GetRequestIsEchoed` | rpi_bm/part12/src/kernel.c:100-101 | Assume the payload begins with `GET ` and a NUL follows `buf[dat_p + 5]` in the frame. Then the reply is the C string at `dat_p + 5`, framed by `fill_tcp_data` and sent. |
| `Serve.OtherRequestIsUnauthorized` | rpi_bm/part12/src/kernel.c:97-99 | The 401 page is chosen if and only if `dat_p != 0` and the payload disagrees with `GET ` within its first four bytes. The page text is then framed and sent. |
| `Serve.NoPayloadNoReply` | rpi_bm/part12/src/kernel.c:92-94 | With `dat_p == 0`, nothing is framed and nothing is sent. |
| `Serve.ExampleGetRoot` | rpi_bm/part12/src/kernel.c:97-111 | The payload `GET / HTTP/1.1` is answered with ` HTTP/1.1`. |
| `Serve.ExampleEcho` | rpi_bm/part12/src/kernel.c:97-99 | The payload `echo hi there` is answered with the 401 page. |
| `Console.Emit` | rpi_bm/part12/src/kernel.c:75-81 | `putc` sends one or two characters, the last being the character itself. It sends two exactly for a newline, and then the first is a carriage return. |
| `Console.Expand` | rpi_bm/part12/src/kernel.c:75-81 | A run of `putc` calls sends between one and two characters per character written, and its output never begins with a newline. |
| `Console.Uart.Putc` | rpi_bm/part12/src/kernel.c:75-81 | `\r\n` is sent for `\n`, and the character itself for anything else. |
| `Console.ExpandAppend` | rpi_bm/part12/src/kernel.c:75-81 | One more `putc` call extends the output by that character's expansion. |
| `Console.NewlinesHaveCarriageReturn` | rpi_bm/part12/src/kernel.c:76-80 | Every newline sent has a carriage return directly before it. |
| `Console.CollapseExpand` | rpi_bm/part12/src/kernel.c:75-81 | Dropping each carriage return that directly precedes a newline gives back exactly the text written. |

## Left out

- Gpio.Peripheral.GpioCall: only field sizes 1 to 30 are modelled. In C a size of 0 divides by zero, and 31 or 32 overflow the signed `1 << field_size`. The source itself only uses sizes 1 and 2.
- Gpio.Peripheral.PinSetFunc: requires `pin / 10` to index `func_select`. C does not check it and would write past the array. The register-block layout in `gpio.h` is not part of this model, so the array length is a parameter.
- Gpio.Peripheral.PinEnable: requires `pin / 32` to index `pupd_enable_clocks`, for the same reason.
- Gpio.Peripheral.PinEnable: for pin 31 (and 63) the C expression `1 << (pin % 32)` shifts a signed `int` into its sign bit, which C does not define. The model (`Gpio.PinBit`) takes the two's-complement result, bit 31 alone (`0x8000_0000`), as the value stored.
- Aliasing of the register spaces: `mem` and the `REGS_GPIO` registers (`funcSelect`, `pupdEnable`, `pupdClocks`) are kept as separate state. In hardware they lie in one MMIO space (`GPFSEL0` is the address of `func_select[0]`). The bases the source passes to `gpio_call` (GPSET, GPCLR, GPPUPPDN) never reach those registers, but a `gpio_call` on such a base would change them too, and the model does not capture that aliasing.
- Volatile MMIO: the real peripheral addresses are never dereferenced. `mmio_read`/`mmio_write` act on an abstract word map, and no side effects of device registers are modelled. For example, GPSET/GPCLR do not drive the pin level.
- `delay` timing: it is recorded only as a `Wait(150)` event.
- The `while (1)` loop of `serve` and the busy-wait on `ENC_GetReceivedFrame`: one iteration is modelled, because these are liveness concerns.
- `packetloop_arp_icmp_tcp`, `fill_tcp_data` and `www_server_reply` belong to the IP/TCP stack, whose code is not part of this model. They are parameters or results of `ServeFrame`, not functions with behaviour.
- The `printf` diagnostics in `serve` and elsewhere are console output only.
- `init_network`, `enc28j60PacketSend` and every `ENC_*` call: Ethernet controller I/O.
- `kernel_main` (UART, IRQ, timer and SPI bring-up) and the UART echo loop at its end: bring-up plumbing and interrupts.
- `spi.h` declares functions and holds no logic.
- Reads past the received frame: the model does not say which bytes follow the frame in memory. The `ReadsPastFrame` / `UndefinedRead` outcomes mark these reads instead.
