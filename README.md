# hal_smartplug in Dafny

A model of the driver logic of `hal_smartplug.py`. This is the machinekit HAL
component that keeps a HAL `enable` pin in step with the relay of a TP-Link
HS100/HS110 smart plug. The model has three parts.

- **`SmartHomeProtocol`** (`protocol.dfy`): the TP-Link Smart Home Protocol
  codec.
  - The XOR autokey cipher starts from key 171. While encrypting, the key
    becomes the ciphertext byte just produced. While decrypting, it becomes
    the ciphertext byte just read.
  - Each outgoing message gets a four-byte zero header. Incoming messages have
    their first four bytes stripped.
  - `encrypt` and `decrypt` are modelled as the running-key loops they are.
    Each loop is proved equal to a recursive stream function.
  - The stream functions are proved inverse to each other and pinned down byte
    by byte.
- **`Plug`** (`plug.dfy`): the `HS1xx` class.
  - `__init__` builds the status query from the `emeter` flag.
  - The state logic of `socketCmd` is modelled: framing, stripping the header,
    and a socket failure raising `error`.
  - `update` and `updateStatus` apply the system and emeter sub-replies, each
    under its own `err_code`.
  - `setRelayState` writes the misspelled field `enabled`.
  - Fields are updated in place. A specification function (`ApplyStatus`,
    `Updated`) describes each update, and the methods are proved against it.
- **`MainLoop`** (`mainloop.dfy`): one pass of the main loop body.
  - The pass polls the plug, copies telemetry to the pins, and reconciles the
    `enable` pin with the plug's relay state. It then publishes the error
    flag.
  - The rule is the function `Decide`, returning `IssueCommand(v)`,
    `Adopt(v)` or `NoOp`. `Reconcile` gives its effect on the bookkeeping.
  - `Controller.Step` runs the pass on a class holding `last_hal_enable`,
    `last_plug_enable` and the pin values.

The socket is not modelled. A call that talks to the device takes two things:

- What the socket delivered: `None` when `socket.error` was raised, otherwise
  the received bytes.
- A `parse` function standing for `json.loads` followed by the key lookups.
  It yields `None` for the JSON text `null`, which `json.loads` turns into
  Python's `None`.

The driver's replies are the datatypes `StatusReply` and `RelayReply`. Bytes
are `bv8`, behind the small `Xor` function. Python 2 command strings become
bytes through `Ord`.

## Model

| member | source | states |
|---|---|---|
| `SmartHomeProtocol.XorCancel` | hal_smartplug.py:59 | XOR with the same key twice gives the byte back |
| `SmartHomeProtocol.Ord` | hal_smartplug.py:50 | `ord(i)` is the character's code as one byte, reduced modulo 256; that leaves every character a Python 2 `str` can hold unchanged |
| `SmartHomeProtocol.Bytes` | hal_smartplug.py:49-50 | a command string becomes one byte per character, each its `ord` |
| `SmartHomeProtocol.Frame` | hal_smartplug.py:46-53 | an encrypted request is 4 + n bytes long and its first four bytes are the zero header |
| `SmartHomeProtocol.EncryptStream` | hal_smartplug.py:47-52 | the encryption loop emits exactly one byte per input byte; which byte is stated by `EncryptAt` |
| `SmartHomeProtocol.DecryptStream` | hal_smartplug.py:56-61 | the decryption loop emits exactly one byte per input byte; which byte is stated by `DecryptAt` |
| `SmartHomeProtocol.EncryptAt` | hal_smartplug.py:49-52 | ciphertext byte i is the previous ciphertext byte (the key, for i = 0) XOR plaintext byte i |
| `SmartHomeProtocol.EncryptStreamUnique` | hal_smartplug.py:49-52 | conversely, any byte string obeying that per-byte rule is the ciphertext |
| `SmartHomeProtocol.FrameAt` | hal_smartplug.py:46-53 | byte 4 + i of `encrypt(s)` is the byte before it (171 for i = 0) XOR `s[i]` |
| `SmartHomeProtocol.DecryptAt` | hal_smartplug.py:58-61 | plaintext byte i is the previous ciphertext byte (171 for i = 0) XOR ciphertext byte i |
| `SmartHomeProtocol.EncryptSnoc` | hal_smartplug.py:49-52 | one more input byte appends that byte XOR the running key (the last output byte) |
| `SmartHomeProtocol.DecryptSnoc` | hal_smartplug.py:58-61 | one more input byte appends that byte XOR the running key (the last input byte) |
| `SmartHomeProtocol.DecryptEncrypt` | hal_smartplug.py:46-62 | decrypting the encryption from the same key gives the plaintext back, for every byte string |
| `SmartHomeProtocol.EncryptDecrypt` | hal_smartplug.py:46-62 | encrypting the decryption gives the ciphertext back, so the cipher is a bijection per length |
| `SmartHomeProtocol.StripHeader` | hal_smartplug.py:89 | `data[4:]`: the received bytes are the header followed by the result, or the result is empty when fewer than four bytes came |
| `SmartHomeProtocol.Unframe` | hal_smartplug.py:89 | decoding keeps every byte after the header |
| `SmartHomeProtocol.FrameRoundTrip` | hal_smartplug.py:86-89 | `decrypt(encrypt(s)[4:]) == s` for every byte string `s` |
| `Plug.UnframeFrame` | hal_smartplug.py:86-89 | received bytes made of four header bytes, whatever they are, followed by the encryption of a payload decode to that payload |
| `SmartHomeProtocol.Encrypt` | hal_smartplug.py:46-53 | the running-key loop returns exactly the header followed by the cipher stream of its input |
| `SmartHomeProtocol.Decrypt` | hal_smartplug.py:55-62 | the running-key loop returns exactly the decryption stream of its input, of the same length |
| `SmartHomeProtocol.ReceivePayload` | hal_smartplug.py:89 | what `socketCmd` decrypts is the decoding of everything after the header |
| `Plug.UpdateCommand` | hal_smartplug.py:38-41 | the status query is wrapped in braces, opens with the sysinfo clause, and is one comma and the emeter clause longer exactly when the emeter is on |
| `Plug.UpdateCommandText` | hal_smartplug.py:38-41 | the status query is `{` + sysinfo clause + `}`, with `,` + emeter clause before the brace when the emeter is on |
| `Plug.NoEmeterClause` | hal_smartplug.py:38-41 | the query without the emeter contains no `"emeter":{"get_realtime":{}}` anywhere |
| `Plug.UpdateCommandClauses` | hal_smartplug.py:38-41 | the query always contains the sysinfo clause, and contains the emeter clause exactly when `emeter` is true |
| `Plug.RelayCommand` | hal_smartplug.py:129 | the relay command is 42 characters long for either state; where the digit sits is stated by `RelayCommandDigit` |
| `Plug.RelayCommandDigit` | hal_smartplug.py:129 | the relay command carries `int(state)` as the digit 1 or 0 at one place and is otherwise the same for both states |
| `Plug.Received` | hal_smartplug.py:86-93 | `socketCmd` returns `None` when the socket raised; when the device answers with four header bytes, whatever they are, followed by the encryption of a payload, it returns the parse of exactly that payload (itself `None` for `null`) |
| `Plug.ApplyStatus` | hal_smartplug.py:102-126 | error is raised exactly on socket failure, a non-zero sysinfo code, or (emeter on) a non-zero emeter code; with no reply (socket failure or `null`) only `error` may change; `enable` changes only on a zero sysinfo code; telemetry changes only with the emeter on and a zero emeter code, and a bad emeter code does not undo the relay update |
| `Plug.Updated` | hal_smartplug.py:98-126 | after `update`, `error` says exactly whether this poll failed, regardless of its previous value; with no error, `enable` is the reported relay state and (emeter on) telemetry is the reported one, or both are the old values when the reply was `null` |
| `Plug.NullStatusIsStale` | hal_smartplug.py:98-105 | a poll answered with `null` clears `error` and leaves the relay state and telemetry as they were |
| `Plug.HS1xx.constructor` | hal_smartplug.py:20-41 | status off and zero, no error, and `update_command` is the query for the given `emeter` flag |
| `Plug.HS1xx.HandleError` | hal_smartplug.py:95-96 | sets `error` and nothing else |
| `Plug.HS1xx.SocketCmd` | hal_smartplug.py:81-93 | sends the framed encryption of the command; on a socket failure returns `None` and sets `error`, otherwise returns the parse of the decrypted bytes after the header (possibly `None`) and changes no status field |
| `Plug.HS1xx.UpdateStatus` | hal_smartplug.py:102-126 | the status fields become `ApplyStatus` of the old ones and the reply; one query is sent |
| `Plug.HS1xx.Update` | hal_smartplug.py:98-100 | the status fields become `Updated` of the old ones (error cleared first) and the reply; `enabled` is untouched |
| `Plug.HS1xx.SetRelayState` | hal_smartplug.py:128-138 | sends the command for `int(state)`; `error` is raised on socket failure or a non-zero code; `enable` and telemetry never change; `enabled` becomes `state` only on acknowledgement (a reply with code 0) |
| `Plug.NullRelayReply` | hal_smartplug.py:130-138 | a `null` reply to a relay command is neither acknowledged nor refused, and an acknowledged command is never refused |
| `MainLoop.Decide` | hal_smartplug.py:195-202 | a command is only for a pin value that is fresh and differs from the plug; adoption only of a plug state that differs from the last adopted one, and only when no command is due; no action only when neither is due |
| `MainLoop.CommandPriority` | hal_smartplug.py:195-199 | when a command and an adoption are both due, the command is issued |
| `MainLoop.PassiveAdoption` | hal_smartplug.py:195-202 | with no fresh pin value, a changed plug state is adopted |
| `MainLoop.Converged` | hal_smartplug.py:195-202 | when pin, plug and bookkeeping agree, nothing happens |
| `MainLoop.Reconcile` | hal_smartplug.py:195-202 | on `IssueCommand` only `last_hal_enable` may change, becoming the pin value exactly when the command left `error` down; on `Adopt` the pin and both bookkeeping values become the plug state; on `NoOp` nothing changes |
| `MainLoop.InSyncInitially` | hal_smartplug.py:176-177 | the starting bookkeeping (both false) satisfies the invariant `InSync` |
| `MainLoop.ReconcileKeepsInSync` | hal_smartplug.py:195-202 | `InSync` is kept by a pass, for any pin value, when only the loop switches the plug and the plug switches exactly when a command leaves `error` down |
| `MainLoop.SettledMeansAgreed` | hal_smartplug.py:195-202 | under `InSync`, a pass that does nothing has pin equal to the plug state |
| `MainLoop.ConvergesInTwoPasses` | hal_smartplug.py:195-202 | under `InSync`, with a steady pin and commands that leave `error` down, two passes reach rest with pin and plug equal |
| `MainLoop.StrandedAfterExternalSwitch` | hal_smartplug.py:195-202 | the rule can come to rest with pin and plug apart: after a command for on that went through, `last_plug_enable` stays off, so a plug switched off by someone else before the next poll is never reconciled |
| `MainLoop.NullCommandReplyCountsAsDone` | hal_smartplug.py:196-198 | a relay command answered with `null` is not acknowledged, yet the loop sets `last_hal_enable` to the pin as if it had been |
| `MainLoop.Controller.constructor` | hal_smartplug.py:166-179 | a fresh plug for the `emeter` flag, both bookkeeping values false, pins at zero |
| `MainLoop.Controller.PublishTelemetry` | hal_smartplug.py:188-192 | with the emeter on, the four telemetry pins take the plug's values; otherwise they are unchanged |
| `MainLoop.Controller.ReconcileRelay` | hal_smartplug.py:193-202 | acts as `Decide` says: sends one relay command and sets `last_hal_enable` only when it left `error` down, or adopts the plug state into pin and both bookkeeping values, or does nothing |
| `MainLoop.Controller.Step` | hal_smartplug.py:186-203 | one pass: the error pin ends equal to `plug.error`; a failed poll sends no command and leaves the enable pin, the telemetry pins and the bookkeeping as they were; otherwise the action is `Decide` on the polled state, telemetry is published, the bookkeeping is `Reconcile`'s, and exactly one extra request (the relay command) is sent iff the action is `IssueCommand` |

## Left out

- Sockets are not modelled: creation, `connect`, `send`, `recv` into the 2048-byte buffer (so long replies are not truncated), timeouts, and `connectSocket`/`closeSocket` with the `connected` and `socket` fields. These are network I/O. Each exchange is a parameter instead: the received bytes, or `None` for `socket.error`.
- `HS1xx.sent` records each framed request `socketCmd` handed to the socket. It also records requests whose `connect` failed, because the model cannot tell at which step a socket call failed.
- `json.loads` and key lookup are not modelled; they are the abstract `parse` parameter, whose `None` stands for a `null` payload. A malformed payload or a missing key raises an exception the driver does not catch, and that path is not modelled. A status reply always carries an emeter part, which is read only when the emeter is enabled.
- `relay_state` and `err_code` are JSON integers. `relay_state` is modelled as a boolean, which is what it is compared with: a HAL bit, where Python has `True == 1`. A `relay_state` other than 0 or 1 is not modelled.
- Telemetry values are floats. They are only copied, so they are modelled as `real` and no arithmetic is done on them.
- `HS1xx` and `Controller` always have the four telemetry fields and the four telemetry pins, starting at 0.0. The driver creates them only when the emeter is on. Nothing in the driver reads them when the emeter is off. Only whether the HAL pins exist differs, and pin creation is not modelled. The `emeter=True` default of `HS1xx.__init__` is also left out, because the main loop always passes the flag.
- The `ip`, `port`, `timeout` and `recv_buffer` fields and the `plug.timeout` assignment are left out. They only configure the socket.
- Main-loop timing is left out: `time.time`, the sleep that corrects for processing time, the endless `while` loop, and shutdown on `KeyboardInterrupt`. The model covers one pass of the body.
- `argparse`, `validIP`/`inet_pton`, and HAL component and pin creation are not modelled: they are library wrappers. The pins are plain fields of `Controller`.
- `test_hal_smartplug.py` is not modelled. It needs a live device and the HAL, and contains no driver logic.
- No fixed known-answer ciphertext is stated. `EncryptStreamUnique` and `FrameAt` determine every ciphertext byte by byte.
