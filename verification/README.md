# Verification model of the ventilation controller firmware

This project models the stateful parts of a Pico W firmware and proves what they promise. It covers five components.

- **The MQTT client session** (`Client`, `SessionLog`, `Qos2Table`, `HandlerTable`, `TopicMatch`, `Framing`): the C++
  client with its QoS 1 and QoS 2 options on, as a class with the client's fields and buffers. What it sends, receives
  and delivers is logged in a ghost field. Each method is proved to add only events the protocol allows (`StepOk`), and
  the delivery guarantees are proved for every log of such events.
- **The MQTT packet codec** (`RemainingLength`, `PacketIO`, `PublishPacket`, `SubscribePacket`, `ConnectPacket`,
  `WireFormat`, `PacketReader`, `PacketReaderNb`): both halves of every packet, over byte buffers, the packets byte by
  byte, and the two packet readers.
- **nanoMODBUS** (`Crc16`, `CrcDistance`, `Primes`, `ModbusWire`, `ModbusProtocol`, `Nmbs`, `ModbusEndToEnd`,
  `ModbusSession`, `ModbusExchange`, `ModbusBystander`, `ModbusFormat`, `ModbusCutOff`, `ModbusDamage`, `ModbusLimits`,
  `ModbusFile`): one class with the message buffer and its index for client and server. The methods are proved against
  pure functions of the arriving bytes, those functions are proved to fit together end to end, and the methods of two
  instances are put together into exchanges, broadcasts included. Further modules say what the messages look like byte
  by byte, what other servers on the line make of them, which damage is sure to be detected and which sizes are taken
  on trust.
- **The framebuffer** (`MonoVlsb`, `LineGeometry`, `Framebuf`): the bit-packed pixel store, line, scroll and blit.
- **The ring buffers** (`IPStack`, `RingBuffer`, `PicoUart`): the TCP receive ring and the UART rings shared with an
  interrupt handler that may run between any two steps.

`dafny verify dfyconfig.toml` checks everything with Dafny 4.11. Nothing was executed: the statements are about
the model.

## How the environment appears

- The network of the MQTT client is a queue of TCP segments that arrive whenever the receive loop polls, and a write
  side that takes any portion of the data or fails. Timers are counts of how often they may still be asked before they
  expire, and those of the keep-alive run out at any time. All are left open, so every statement holds for all
  behaviours.
- The Modbus line holds the bytes that are still to come, after which reads time out or fail. The application behind
  the callbacks is an arbitrary function of all calls so far. In an exchange the client's line holds in advance the
  answer its request is going to get; that the server gives exactly that answer is part of what is proved.
- Interrupts of the UART happen any number of times at every point where the controller lets them; before each the
  hardware may have received any bytes and made room for any number.
- `char` is taken as unsigned, as on the firmware's processor, and the host as little-endian, which the in-place register
  exchange of nanoMODBUS needs.

## Where the code differs from its documents

The model follows the code. The differences that the statements below reflect:

- `MQTTPacket_len` compares after adding one and so overestimates at four lengths; it is safe exactly up to 268435455.
- The blocking reader ignores a length field that does not end; the non-blocking one reports it.
- Deserialisers of packets too short for their fields return the size of the length field, 1 for most packets, which
  callers take for success; the fields are then unset. The model gives them arbitrary values, also bytes read behind
  the end of a short buffer.
- The size guards of CONNACK, SUBACK and UNSUBACK ask for fewer bytes than are written; SUBACK lets one entry more than
  `maxcount` through, and UNSUBSCRIBE ignores `maxcount`.
- A `#` does not match the level above it and no wildcard matches an empty level. The rule for topics that begin with
  `$` is not implemented.
- With ten ids outstanding a QoS 2 message is dropped but acknowledged with PUBREC; a QoS 2 message with id 0 is never
  delivered. A QoS 2 PUBLISH that is cut off before its id is taken for a good one: it claims whatever id stands in old
  bytes of the buffer, and the message that really has this id is then dropped as a repetition.
- An acknowledgement that carries another id than the awaited one is taken for success: the session stays connected with
  the publish still in flight, and the next publish overwrites it. A publish at QoS 0 stores the id its caller gave, and
  stays in flight if that is not 0.
- `connect` sends a stored publish again whatever the CONNACK said, and the outcome of that publish becomes its own.
  The DUP flag is not set on the copy. `pubrel` is never set, so the PUBREL branch of `connect` is dead.
- `readPacket` returns 1, a valid packet type, when the body comes up short. A CONNACK too short for a return code is
  taken for an acceptance when its length field is one byte long.
- A failed subscribe or unsubscribe closes the session even if it was not open, and a subscribe that the SUBACK refuses
  returns success without adding the handler.
- nanoMODBUS: the length field of a file-read reply over TCP is one short. An unknown function is neither answered nor
  is the rest of its message read. A server that reads past a combined read and write for another unit expects the
  answer to a register write there. Plain reads wait for an answer even when they are broadcast. A server whose callback
  fails, or is missing, answers a broadcast with the exception.
- The receiver of a serial message takes its size from the message, so damage that hits the byte count can turn a
  message into a shorter one with a good CRC.
- nanoMODBUS takes sizes on trust: a file read whose sub-requests are each in bounds can owe a reply larger than the
  message buffer; `recv_read_registers_res` stores the registers of a reply before it compares their number with the
  quantity asked for; `recv_read_discrete_res` never compares the byte count with the quantity.
- `mono_vlsb` sizes its buffer by the width, so a stride larger than the width fits only a frame of one page.

## Model

| member | source | states |
|---|---|---|
| RemainingLength.Encode | paho.mqtt.embedded-c/MQTTPacket/src/MQTTPacket.c:29-45 | The encoding loop writes exactly the base-128 digits of the length, low digit first, all but the last marked, and touches nothing else in the buffer. |
| RemainingLength.DecodeBuf | paho.mqtt.embedded-c/MQTTPacket/src/MQTTPacket.c:54-117 | The decoding loop returns the value and the number of bytes of the field that stands in the buffer, and stops with a read error after four bytes that do not end it. |
| RemainingLength.DecodeEncoded | paho.mqtt.embedded-c/MQTTPacket/src/MQTTPacket.c:29-81 | Decoding inverts encoding for every length, wherever the field stands and whatever follows it. |
| RemainingLength.EncodedIsMinimal | paho.mqtt.embedded-c/MQTTPacket/src/MQTTPacket.c:29-45 | No field that decodes to a value is shorter than the one the encoder writes (section 2.2.3 of MQTT 3.1.1). |
| RemainingLength.PacketLenEstimate | paho.mqtt.embedded-c/MQTTPacket/src/MQTTPacket.c:84-98 | The packet-length estimate is exact up to 268435455 except at 127, 16383, 2097150 and 2097151, where it is one too large. |
| RemainingLength.PacketLenSafe | paho.mqtt.embedded-c/MQTTPacket/src/MQTTPacket.c:84-98 | The estimate is never below the true packet length if and only if the remaining length is at most 268435455: exactly then the serialisers' size check protects the buffer. |
| PublishPacket.SerializePublish | paho.mqtt.embedded-c/MQTTPacket/src/MQTTSerializePublish.c:31-91 | Either the estimate exceeds the buffer length and nothing is written, or exactly the PUBLISH packet is written, its true length is returned, and every byte behind it is untouched. |
| PublishPacket.DeserializePublish | paho.mqtt.embedded-c/MQTTPacket/src/MQTTDeserializePublish.c:36-69 | The receiving half computes the same view of any packet in the buffer as the reference parser, including its odd return codes for short packets. |
| PublishPacket.PublishRoundTrip | paho.mqtt.embedded-c/MQTTPacket/src/MQTTSerializePublish.c:55-91 | A PUBLISH at any QoS, with any topic the length bytes can hold, any payload and any flags, is recovered exactly by the opposite half, whatever bytes follow it (section 3.3). |
| PublishPacket.AckRoundTrip | paho.mqtt.embedded-c/MQTTPacket/src/MQTTSerializePublish.c:104-127 | An acknowledgement packet comes back from the deserialiser with its type, id and DUP flag; its QoS bits are 1 for a PUBREL and 0 otherwise. |
| PublishPacket.ImageParses | paho.mqtt.embedded-c/MQTTPacket/src/MQTTDeserializePublish.c:36-106 | What lies behind a packet in the buffer makes no difference to anything the two deserialisers read from it. |
| SubscribePacket.SerializeList | paho.mqtt.embedded-c/MQTTPacket/src/MQTTSubscribeClient.c:28-86 | SUBSCRIBE and UNSUBSCRIBE with any list of filters: all of the packet or nothing, within the buffer length. |
| SubscribePacket.DeserializeList | paho.mqtt.embedded-c/MQTTPacket/src/MQTTSubscribeServer.c:35-76 | The list loop of SUBSCRIBE and UNSUBSCRIBE yields the entries of the reference parser, or fails exactly when it does. |
| SubscribePacket.ListRoundTrip | paho.mqtt.embedded-c/MQTTPacket/src/MQTTSubscribeServer.c:35-76 | Every list of up to `maxcount` filters (for UNSUBSCRIBE any number) with its QoS values is recovered with the same count and order, from a packet whose own QoS bits are 1 (sections 3.8 and 3.10). |
| SubscribePacket.SerializeSuback | paho.mqtt.embedded-c/MQTTPacket/src/MQTTSubscribeServer.c:88-116 | The SUBACK bytes for any list of granted QoS values, and the size guard that asks for less than is written. |
| SubscribePacket.DeserializeSuback | paho.mqtt.embedded-c/MQTTPacket/src/MQTTSubscribeClient.c:100-135 | The granted QoS values in order; the bound on their number lets one more than `maxcount` through. |
| SubscribePacket.SubackRoundTrip | paho.mqtt.embedded-c/MQTTPacket/src/MQTTSubscribeClient.c:100-135 | Up to `maxcount` granted QoS values come back in order (section 3.9). |
| SubscribePacket.SerializeUnsuback | paho.mqtt.embedded-c/MQTTPacket/src/MQTTUnsubscribeServer.c:76-100 | The four UNSUBACK bytes; the guard asks for two, so the packet is longer than the given length exactly for lengths 2 and 3. |
| ConnectPacket.SerializeConnect | paho.mqtt.embedded-c/MQTTPacket/src/MQTTConnectClient.c:27-121 | All of the CONNECT packet or nothing, within the buffer length, for both protocol versions and every combination of optional strings. |
| ConnectPacket.DeserializeConnect | paho.mqtt.embedded-c/MQTTPacket/src/MQTTConnectServer.c:51-108 | The server half computes the reference parse of any CONNECT packet, field by field, or rejects exactly when it does. |
| ConnectPacket.ConnectRoundTrip | paho.mqtt.embedded-c/MQTTPacket/src/MQTTConnectServer.c:51-108 | The server half accepts what the client half wrote if and only if a password is not empty and comes only with a user name, and a user name without a password is not empty; it then recovers client id, keep-alive, clean-session, will topic, message, QoS and retain, username and password (section 3.1). |
| ConnectPacket.SerializeConnack | paho.mqtt.embedded-c/MQTTPacket/src/MQTTConnectServer.c:119-147 | The four CONNACK bytes; the guard asks for two, so the packet is longer than the given length exactly for lengths 2 and 3. |
| ConnectPacket.ConnackRoundTrip | paho.mqtt.embedded-c/MQTTPacket/src/MQTTConnectServer.c:119-147 | Return code and session-present bit of a written CONNACK stand where the client half reads them (section 3.2). |
| ConnectPacket.DeserializeConnack | paho.mqtt.embedded-c/MQTTPacket/src/MQTTConnectClient.c:132-159 | Session-present bit and return code of a CONNACK, and the short packets that are taken for good ones, with the values the caller had set. |
| WireFormat.LengthSizes | paho.mqtt.embedded-c/MQTTPacket/src/MQTTPacket.c:29-45 | The bytes of table 2.4 of MQTT 3.1.1: the least and the greatest length of each size of the field. |
| WireFormat.PublishDrawn | paho.mqtt.embedded-c/MQTTPacket/src/MQTTSerializePublish.c:55-91 | Every PUBLISH byte by byte: 0x30 with the DUP, QoS and retain bits where section 3.3 has them, the length, the topic with two length bytes, the id at QoS 1 and 2, the payload. |
| WireFormat.AcksDrawn | paho.mqtt.embedded-c/MQTTPacket/src/MQTTSerializePublish.c:104-127 | PUBACK, PUBREC, PUBREL, PUBCOMP and UNSUBACK start with 0x40, 0x50, 0x62, 0x70 and 0xB0, then 2 and the id, high byte first. |
| WireFormat.ListsDrawn | paho.mqtt.embedded-c/MQTTPacket/src/MQTTSubscribeClient.c:50-86 | SUBSCRIBE and UNSUBSCRIBE of one and of two filters byte by byte, from 0x82 and 0xA2 on. |
| WireFormat.AnswersDrawn | paho.mqtt.embedded-c/MQTTPacket/src/MQTTSubscribeServer.c:88-116 | SUBACK and CONNACK byte by byte, from 0x90 and 0x20 on. |
| WireFormat.ConnectDrawn | paho.mqtt.embedded-c/MQTTPacket/src/MQTTConnectClient.c:63-121 | The CONNECT packet of version 4 with all its strings and with none but the client id: protocol name and level, the flag byte bit by bit, keep-alive, and the strings in the order of section 3.1.3. |
| PacketReader.Read | paho.mqtt.embedded-c/MQTTPacket/src/MQTTPacket.c:290-316 | The blocking reader's return code, the bytes it leaves in the buffer and what it consumes, for every input stream, incomplete and oversized packets included. |
| PacketReader.ReadOneWhole | paho.mqtt.embedded-c/MQTTPacket/src/MQTTPacket.c:290-316 | A packet with the shortest length field that fits the buffer is read to its last byte, reproduced in the buffer, and nothing behind it is consumed. |
| PacketReader.ReadOneSound | paho.mqtt.embedded-c/MQTTPacket/src/MQTTPacket.c:290-316 | Whatever the stream, what the reader hands over is a whole packet with the shortest length field that fits the buffer, with the header byte and the body that were read. |
| PacketReader.OverlongFieldAccepted | paho.mqtt.embedded-c/MQTTPacket/src/MQTTPacket.c:303 | An input with a length field that never ends which the blocking reader takes for a packet; the non-blocking one reports an error. |
| PacketReaderNb.Transport.ReadNb | paho.mqtt.embedded-c/MQTTPacket/src/MQTTPacket.c:324-411 | One call of the resumable reader from any state it can be left in: a call that finishes gives what the blocking reader gives for the same stream and resets the state; one that does not takes bytes or uses up a stall. |
| PacketReaderNb.ReadUntilDone | paho.mqtt.embedded-c/MQTTPacket/src/MQTTPacket.c:362-411 | However the source cuts the stream up and however often it stalls, repeating the call ends, with the type, buffer contents and consumption of one blocking read. |
| TopicMatch.IsTopicMatched | paho.mqtt.embedded-c/MQTTClient/src/MQTTClient.h:497-522 | The two-pointer walk terminates and decides the level-by-level relation for every filter, well-formed or not, and every topic name. |
| TopicMatch.StandardExactly | paho.mqtt.embedded-c/MQTTClient/src/MQTTClient.h:497-522 | For every well-formed filter the code's relation holds if and only if that of section 4.7.1 of MQTT 3.1.1 does, the filter does not end in a `#` below the name's last level, and no wildcard meets an empty level. |
| TopicMatch.MatchesNothing | paho.mqtt.embedded-c/MQTTClient/src/MQTTClient.h:497-522 | A filter in which anything follows a `#`, or something other than a separator follows a `+`, matches no name. |
| ClientModel.Client.SetMessageHandler | paho.mqtt.embedded-c/MQTTClient/src/MQTTClient.h:810-849 | On a table with distinct filters: update, insert while there is room, or remove; success exactly when the filter is present or there is room for a handler; all other filters keep their handlers and a failed call changes nothing. |
| ClientModel.Client.DeliverMessage | paho.mqtt.embedded-c/MQTTClient/src/MQTTClient.h:527-554 | The loop over the slots calls the handlers of the reference function, in slot order, and logs the delivery. |
| HandlerTable.DeliveryComplete | paho.mqtt.embedded-c/MQTTClient/src/MQTTClient.h:527-554 | Every handler is called exactly as often as it is kept under a filter that matches the topic, and the default handler is called if and only if no filter matches. |
| IPStackModel.IPStack.TcpClientRecv | mqtt/IPStack.cpp:177-225 | A received segment: exactly its first min(free, n) bytes are appended behind what is held, across the wrap in two parts, and the rest is added to the 32-bit drop counter. |
| IPStackModel.IPStack.Read | mqtt/IPStack.cpp:228-261 | What a read returns are the oldest bytes in order, across the wrap in two parts, while segments keep arriving; bytes accepted are bytes delivered followed by bytes held. |
| IPStackModel.StoredAt | mqtt/IPStack.cpp:196-218 | Bytes stored from the write index on, wherever the ring wraps, extend the queue the ring stands for. |
| IPStackModel.RingTake | mqtt/IPStack.cpp:228-261 | Bytes taken from the read index on, wherever the ring wraps, are the front of the queue, and the rest remains. |
| Framing.ReadSequence | paho.mqtt.embedded-c/MQTTClient/src/MQTTClient.h:448-490 | Repeated readPacket over the TCP ring: any run of minimally encoded packets that fit the buffer, in any segment sizes, is read packet by packet, each exactly as sent, consuming exactly their bytes, unless a byte is dropped or a read times out. |
| ClientModel.Client.ReadPacket | paho.mqtt.embedded-c/MQTTClient/src/MQTTClient.h:413-490 | One readPacket from any network state: what is in the buffer, the return code and what was consumed, as the reference reader says while nothing is dropped and no read times out; a packet that is whole in the ring is never timed out on; on every other outcome what the return code means. |
| ClientModel.Client.UseQoS2msgid | paho.mqtt.embedded-c/MQTTClient/src/MQTTClient.h:350-361 | The id goes into the first free slot, or the table is unchanged and full. |
| ClientModel.Client.FreeQoS2msgid | paho.mqtt.embedded-c/MQTTClient/src/MQTTClient.h:365-375 | Exactly the first slot with the id is freed. |
| Qos2Table.FullWhen | paho.mqtt.embedded-c/MQTTClient/src/MQTTClient.h:338-375 | A table without repetitions has no free slot if and only if it holds ten ids. |
| ClientModel.Client.HandlePublish | paho.mqtt.embedded-c/MQTTClient/src/MQTTClient.h:600-638 | Receiving a PUBLISH keeps the invariant that the table holds, without repetition, exactly the ids delivered and not yet released, and every step it logs is allowed. |
| ClientModel.Client.AnswerPubrel | paho.mqtt.embedded-c/MQTTClient/src/MQTTClient.h:641-656 | A PUBCOMP for the id is offered, and the id is forgotten exactly when it went out. |
| SessionLog.AtMostOnce | paho.mqtt.embedded-c/MQTTClient/src/MQTTClient.h:600-656 | In every log the client can produce, two deliveries of QoS 2 messages with the same id are separated by a sent PUBCOMP for that id in answer to a PUBREL, or by a cleaned session (section 4.3.3). |
| SessionLog.ExactlyOnce | paho.mqtt.embedded-c/MQTTClient/src/MQTTClient.h:600-638 | From a point where a non-zero id is free until it is released or the session is cleaned, when a well-formed QoS 2 PUBLISH with this id arrives while it and the outstanding ids are at most ten, exactly one message is delivered under the id, however often the PUBLISH comes again, before or after, and whether or not the answers get out; it is the message of the PUBLISH that came in just before its delivery if and only if that PUBLISH was well-formed (section 4.3.3). |
| SessionLog.RepeatsDeliveredOnce | paho.mqtt.embedded-c/MQTTClient/src/MQTTClient.h:600-638 | So, when the PUBLISH packets are well-formed and those under the id repeat one another, their message is delivered exactly once and no other under the id. |
| SessionLog.CutOffClaims | paho.mqtt.embedded-c/MQTTPacket/src/MQTTDeserializePublish.c:58-63 | Without that it fails: a QoS 2 PUBLISH cut off before its id claims an id, and the message that has it is never delivered. |
| SessionLog.AdmittedIff | paho.mqtt.embedded-c/MQTTClient/src/MQTTClient.h:615-629 | A well-formed QoS 2 PUBLISH is delivered at once if and only if its id is not 0, is not outstanding, and fewer than ten are; otherwise it is answered with PUBREC and dropped. |
| ClientModel.Client.Cycle | paho.mqtt.embedded-c/MQTTClient/src/MQTTClient.h:579-676 | One cycle, from any state between steps and for any packet or none. Unless a byte is dropped or a read times out, the next packet of the stream is read, logged first and its type returned, and exactly its bytes are consumed; 0 comes only from a read that timed out, and no read times out on a packet that is whole in the ring. The session invariant is kept and everything logged is an answer the protocol allows. Without trouble (no case or no answer for the packet, an answer that did not get out, a ping unanswered for too long) nothing but the answers changes, and the keep-alive has been seen to; with it the session is closed and the failure returned. |
| ClientModel.Client.Keepalive | paho.mqtt.embedded-c/MQTTClient/src/MQTTClient.h:680-707 | A ping is sent exactly when keep-alive is on, none is outstanding and nothing was sent or nothing received for too long, and is then outstanding if it got out; the check fails exactly when that did not, or an outstanding one has gone unanswered for too long. |
| ClientModel.Client.WaitFor | paho.mqtt.embedded-c/MQTTClient/src/MQTTClient.h:715-727 | Waiting ends with a packet of the wanted type in the buffer, or because the time is up or a cycle met trouble, and cycles unless the time is up at once; it keeps what a cycle keeps. |
| ClientModel.Client.Publish | paho.mqtt.embedded-c/MQTTClient/src/MQTTClient.h:984-1022 | On a connected session a publish at QoS 1 or 2 goes out with the next id, 1 to 65535. With room for it the packet is stored if the session is to be kept and then offered byte for byte; it fails only if it did not get out, or the wait for its acknowledgement was given up, or that was too short to be read, and the session is then closed; success at QoS 1 and 2 means the acknowledgement that ends the exchange came and was consumed. After the success of a stored publish nothing is left in flight if and only if that acknowledgement carried the awaited id (at QoS 0, if and only if the caller's id was 0). As long as every acknowledgement consumed carried the awaited id and QoS 0 went out with id 0, a connected session has no publish in flight between calls, and nothing stored is given up for a new publish. |
| ClientModel.Client.Connect | paho.mqtt.embedded-c/MQTTClient/src/MQTTClient.h:732-790 | Exactly the CONNECT packet for the options is offered. If it gets out while a publish is pending, exactly the stored bytes are offered again and the outcome of that is the result; otherwise the result is the return code of the CONNACK that came, or a failure because the wait was given up or the CONNACK was too short. Success and only success leaves the client connected. |
| ClientModel.Client.Yield | paho.mqtt.embedded-c/MQTTClient/src/MQTTClient.h:559-574 | Cycling for any time keeps all that holds between calls; it ends when the time is up, or fails because a cycle met trouble. |
| ClientModel.Client.Subscribe | paho.mqtt.embedded-c/MQTTClient/src/MQTTClient.h:853-887 | The SUBSCRIBE for the filter and the next id is sent first. Success means that it got out and a SUBACK came; unless that refused the filter or could not be read, exactly the handler of this filter is set, and otherwise none. A failure leaves the session closed, and comes only from a packet that did not get out, a wait given up, or a table without room. All that holds between calls is kept. |
| ClientModel.Client.Unsubscribe | paho.mqtt.embedded-c/MQTTClient/src/MQTTClient.h:900-930 | The UNSUBSCRIBE for the filter and the next id is sent first. Success means that it got out and an UNSUBACK came, and removes exactly the handler of this filter; a failure leaves the session closed, and comes only from a packet that did not get out or a wait given up. All that holds between calls is kept. |
| ClientModel.Client.Disconnect | paho.mqtt.embedded-c/MQTTClient/src/MQTTClient.h:1041-1050 | The two bytes of a DISCONNECT are sent, the session is closed, and the result says whether they got out; all that holds between calls is kept. |
| ClientModel.Client.constructor | paho.mqtt.embedded-c/MQTTClient/src/MQTTClient.h:328-333 | A new client is disconnected and cleaned, and all that holds between calls holds, whatever is in the fields the code leaves unset. |
| ClientModel.Client.SendPacket | paho.mqtt.embedded-c/MQTTClient/src/MQTTClient.h:380-408 | Success means that the network took exactly the packet's bytes, in order, in whatever portions. |
| ClientModel.Client.GetNext | paho.mqtt.embedded-c/MQTTClient/src/MQTTClient.h:91-94 | Packet ids run from 1 to 65535 and never repeat at once. |
| SessionLog.NoOverwrite | paho.mqtt.embedded-c/MQTTClient/src/MQTTClient.h:944-1022 | As long as every acknowledgement consumed carried the awaited id and QoS 0 went out with id 0, before another publish is stored the PUBACK (QoS 1) or PUBCOMP (QoS 2) of the stored one has come in, with its id if it was long enough to carry one, and been consumed, or the session was cleaned. |
| SessionLog.StrayAckOverwrites | paho.mqtt.embedded-c/MQTTClient/src/MQTTClient.h:944-968 | Without that it fails: one acknowledgement with another id, and the next publish takes the place of one that nobody has acknowledged. |
| SessionLog.Redelivery | paho.mqtt.embedded-c/MQTTClient/src/MQTTClient.h:732-790 | After a publish is stored, every later connect that gets its CONNECT out before the acknowledgement itself offers exactly the original bytes again, before any other connect (section 4.4). |
| Crc16.CrcCalc | modbus/nanomodbus.c:187-202 | The bitwise loop over any number of bytes computes the reference register, its bytes exchanged. |
| Crc16.WidenIsCast | modbus/nanomodbus.c:190 | The byte that is mixed into the register is the byte cast to sixteen bits. |
| Crc16.BytesExchanged | modbus/nanomodbus.c:201 | The bytes of the CRC are the two halves of the register, and the shifts at the end exchange them. |
| Crc16.RegisterIsBits | modbus/nanomodbus.c:187-202 | Adding eight bits and shifting eight times is the same as feeding the message bit by bit in line order. |
| Crc16.BurstDetected | modbus/nanomodbus.c:187-202 | Two messages of any equal length that differ only within sixteen consecutive line bits leave different registers, from any starting register. |
| Crc16.NeighbouringBytesDetected | modbus/nanomodbus.c:187-202 | Two messages of equal length that differ only within two consecutive bytes have different CRCs. |
| Crc16.OddErrorsDetected | modbus/nanomodbus.c:187-202 | Any odd number of flipped bits, wherever they are, changes the register. |
| CrcDistance.PeriodReturns | modbus/nanomodbus.c:192-198 | Shifted without input the register comes back to where it was after 32767 steps. |
| CrcDistance.ReturnsIff | modbus/nanomodbus.c:192-198 | And after a number of steps if and only if 32767 divides it. |
| CrcDistance.TwoErrorsExactly | modbus/nanomodbus.c:187-202 | Two flipped bits leave the register as it would have been if and only if they lie a multiple of 32767 bits apart, in messages of any length and from any start. |
| CrcDistance.FewErrorsDetected | modbus/nanomodbus.c:187-202 | One, two or three flipped bits change the register in every message of up to 32767 bits. |
| CrcDistance.FrameFewErrorsRejected | modbus/nanomodbus.c:240-257 | Frames of up to 4095 bytes have Hamming distance 4: flipping up to three bits of an accepted one, its CRC included, is rejected. |
| Crc16.AcceptsIffZero | modbus/nanomodbus.c:240-257 | The receiver's comparison succeeds if and only if the register, run over the whole frame with its CRC, ends at zero (section 2.5.1.2 of MODBUS over Serial Line V1.02). |
| Crc16.SealedFrame | modbus/nanomodbus.c:341-352 | The two bytes the sender appends bring the register to zero, and the frame is accepted. |
| Crc16.FrameBurstRejected | modbus/nanomodbus.c:240-257 | A burst of up to sixteen bits anywhere in an accepted frame, its CRC included, is rejected. |
| Crc16.FrameOddErrorsRejected | modbus/nanomodbus.c:240-257 | So is any odd number of flipped bits. |
| ModbusWire.PacketReceived | modbus/nanomodbus.c:260-352 | A packet as put on the line is received with the same header fields and data, whatever follows it, on either transport. |
| ModbusWire.DamagedPacketRefused | modbus/nanomodbus.c:240-257 | A serial packet damaged by a burst of up to sixteen bits, by an odd number of flipped bits or by up to three of them ends in the CRC error, if the receiver takes it to have as many bytes of data as were sent; it reads that number from the damaged bytes. |
| ModbusDamage.ShortenedWriteAccepted | modbus/nanomodbus.c:1060-1129 | When the burst hits the byte count this can fail: a write of two registers that is received, without an error, as a write of one. |
| ModbusDamage.DamagedRequestRefused | modbus/nanomodbus.c:240-257 | Any client's request so damaged, off which the server reads the size that was sent, ends in the CRC error, whatever known function it then names and whatever follows on the line. |
| ModbusDamage.SizeKept | modbus/nanomodbus.c:987-1445 | For that it is enough that function code and byte count are as they were sent. |
| ModbusDamage.PollDamaged | modbus/nanomodbus.c:1543-1577 | The server's poll of such a request returns the CRC error, or passes over a function it does not know; it makes no call and sends nothing. |
| ModbusDamage.DamagedAnswerRefused | modbus/nanomodbus.c:393-720 | Any server's answer to any request, so damaged, with the byte count, the sizes inside a file reply and a function code the client takes for an answer as they were sent, ends in the CRC error, in a wrong unit id if that was hit, or in an invalid response if the function code was. |
| ModbusDamage.DamagedWithin | modbus/nanomodbus.c:393-720 | Such an answer meets the preconditions of the client's functions. |
| ModbusDamage.ClientRefusesDamage | modbus/nanomodbus.c:1592-1877 | And their result for it is that error, whichever function was called. |
| ModbusWire.ResealedIsReceived | modbus/nanomodbus.c:1325-1336 | A received message sent again with a fresh CRC is byte for byte what was received. |
| ModbusEndToEnd.ServerServes | modbus/nanomodbus.c:725-1445 | For every request a client can make, sent to one server or to all, the server's handler finds exactly the client's arguments, makes the calls they ask for and decides the reply that is due; to a broadcast only an exception is due, and a combined write and read ends after its write. |
| ModbusEndToEnd.EndToEnd | modbus/nanomodbus.c:240-1877 | For every request a client can make, on both transports and whatever else is on the lines, the reference functions of server and client fit together: the request arrives whole, the calls due are those with exactly the client's arguments, and what the client makes of the answer are exactly the callbacks' values without an error, or the exception 1 to 4 they raised (4 for any other error, 1 for a callback that is not set); neither packet exceeds 260 bytes. |
| ModbusCutOff.AnswerCutOff | modbus/nanomodbus.c:205-235 | A client's call that hears nothing, or any proper part of a server's answer from its start, ends in the timeout, or the failure of the line, whatever was asked and answered. |
| ModbusFormat.CrcExample | modbus/nanomodbus.c:187-202 | The CRC example of MODBUS over Serial Line V1.02, section 6.2.2: 02 07 is sent as 02 07 41 12. |
| ModbusFormat.FramesDrawn | modbus/nanomodbus.c:324-352 | A message byte by byte on both transports: transaction, protocol 0, length, unit and function before the data, or unit and function before it and the CRC behind it. |
| ModbusFormat.RequestsDrawn | modbus/nanomodbus.c:1592-1877 | Function code and data of every request byte by byte, as section 6 of the MODBUS Application Protocol V1.1b3 has them. |
| ModbusFormat.RegistersDrawn | modbus/nanomodbus.c:95-101 | Registers go over the line in order, the high byte first. |
| ModbusFormat.ClientBounds | modbus/nanomodbus.c:1592-1877 | The quantities and addresses a client accepts, as numbers. |
| ModbusFormat.ServerBounds | modbus/nanomodbus.c:740-785 | Of reads and single writes, whether sent to a server or to all: exception 3 for a quantity out of bounds, else 2 for an address, else 1 for a missing callback, and no call then; exactly one call otherwise. |
| ModbusFormat.ServerWriteBounds | modbus/nanomodbus.c:1012-1129 | The same for multiple writes, whose byte count must agree with the quantity. |
| ModbusFormat.ServerReadWriteBounds | modbus/nanomodbus.c:1379-1445 | The same for combined writes and reads. |
| ModbusFormat.OnlyAnswers | modbus/nanomodbus.c:393-436 | A client's call returns no error only for a whole message with its function code and, on the serial line, its unit and a good CRC, over TCP its transaction and protocol 0. |
| ModbusFormat.AnswersMatch | modbus/nanomodbus.c:490-720 | And only if it repeats the address and value or quantity written, or the whole file record, or counts the registers asked for. |
| ModbusEndToEnd.LengthFieldExact | modbus/nanomodbus.c:324-338 | The length field of a TCP answer counts the bytes behind it in every case except the reply to a file read, where it is one short. |
| ModbusLimits.FileReplyFits | modbus/nanomodbus.c:1133-1237 | The reply to a file read whose callbacks all succeed fits the 260-byte buffer if and only if its sub-requests and their registers are together at most 127 (RTU) or 125 (TCP); the code checks each sub-request and never their sum. |
| ModbusLimits.TwoLargeParts | modbus/nanomodbus.c:1177-1237 | A file read of two sub-requests of 124 registers, which is accepted and owes a reply of 501 bytes of data. |
| ModbusLimits.OtherNumberOfRegisters | modbus/nanomodbus.c:490-522 | A reply with another number of registers than were asked for is refused, but has been stored by then, and that stays within an output of the quantity asked for if and only if the reply has no more registers than that. |
| ModbusLimits.AnyNumberOfBits | modbus/nanomodbus.c:458-487 | A reply with any byte count passes for any quantity of coils, and stays within an output exactly when its bytes do. |
| ModbusFile.CheckedIff | modbus/nanomodbus.c:1263-1297 | The first pass over a file write passes if and only if the request consists of valid sub-requests joined without a gap or a remainder. |
| ModbusFile.WrittenInOrder | modbus/nanomodbus.c:1299-1331 | The second pass writes the sub-requests each once and in order, with their registers in host order, up to the first callback that fails; that failure is the outcome, and no failure means that all were written; nothing is written without a callback. |
| NmbsModel.Nmbs.CallWithRegisters | modbus/nanomodbus.c:85-108 | The registers are exchanged in place for the callback, which sees them in host order, and exchanged back: the message buffer is byte for byte as before. |
| NmbsModel.SwapBack | modbus/nanomodbus.c:104-108 | Exchanging twice restores the bytes. |
| NmbsModel.SwappedIsHost | modbus/nanomodbus.c:85-92 | After the exchange a little-endian host reads the registers the message means. |
| NmbsModel.Nmbs.SwapRegs | modbus/nanomodbus.c:104-108 | The descending loop exchanges exactly the bytes of the given registers in place. |
| NmbsModel.Nmbs.PutRegs | modbus/nanomodbus.c:95-101 | The descending loop leaves the registers in the buffer in message order. |
| NmbsModel.Nmbs.RecvMsgFooter | modbus/nanomodbus.c:240-257 | The CRC of what was received against the two bytes that follow it. |
| NmbsModel.Nmbs.RecvMsgHeader | modbus/nanomodbus.c:260-321 | Header fields and errors on both transports, and what is consumed. |
| NmbsModel.Nmbs.RecvResHeader | modbus/nanomodbus.c:393-436 | Which response heads are accepted, which errors the others end in, and which exceptions are passed on. |
| NmbsModel.Nmbs.RecvReadDiscreteRes | modbus/nanomodbus.c:458-487 | Result, values and consumption for every response with sizes that fit. |
| NmbsModel.Nmbs.RecvReadRegistersRes | modbus/nanomodbus.c:490-522 | Result, values and consumption for every response with sizes that fit; all the registers that came are stored, also when their number or the CRC is wrong. |
| NmbsModel.Nmbs.RecvEchoRes | modbus/nanomodbus.c:525-631 | Result and consumption of the four functions that expect two words back. |
| NmbsModel.Nmbs.RecvReadFileRecordRes | modbus/nanomodbus.c:634-669 | Result and the registers copied out after the in-place exchange. |
| NmbsModel.Nmbs.RecvWriteFileRecordRes | modbus/nanomodbus.c:672-720 | Result of comparing the echoed registers, exchanged in place, with those that were sent. |
| NmbsModel.Nmbs.HandleReadDiscrete | modbus/nanomodbus.c:725-785 | The handler does to calls, line and result what the reference says for the message, for good and bad requests, broadcasts and requests for others. |
| NmbsModel.Nmbs.HandleReadRegisters | modbus/nanomodbus.c:790-850 | The same for reading registers. |
| NmbsModel.Nmbs.HandleWriteSingleCoil | modbus/nanomodbus.c:883-932 | The same for a single coil. |
| NmbsModel.Nmbs.HandleWriteSingleRegister | modbus/nanomodbus.c:937-982 | The same for a single register. |
| NmbsModel.Nmbs.HandleWriteMultipleCoils | modbus/nanomodbus.c:987-1055 | The same for several coils. |
| NmbsModel.Nmbs.HandleWriteMultipleRegisters | modbus/nanomodbus.c:1060-1129 | The same for several registers. |
| NmbsModel.Nmbs.HandleReadFileRecord | modbus/nanomodbus.c:1133-1237 | The same for a file read with any number of sub-requests. |
| NmbsModel.Nmbs.HandleWriteFileRecord | modbus/nanomodbus.c:1241-1342 | The same for a file write with any number of sub-requests, answered by an echo of the buffer. |
| NmbsModel.Nmbs.HandleReadWriteRegisters | modbus/nanomodbus.c:1346-1445 | The same for the combined read and write. |
| NmbsModel.Nmbs.Poll | modbus/nanomodbus.c:1543-1577 | One poll, for any bytes on the line: silence, which is no error, errors, unknown functions, and requests handled as above, with what is left unread. |
| NmbsModel.Nmbs.ReadDiscrete | modbus/nanomodbus.c:1592-1622 | Refused arguments change nothing; otherwise exactly the request packet is sent and the result, values and consumption are those of the reference for the bytes that arrive. |
| NmbsModel.Nmbs.ReadRegisters | modbus/nanomodbus.c:1624-1654 | The same for reading registers. |
| NmbsModel.Nmbs.WriteSingleCoil | modbus/nanomodbus.c:1657-1676 | The same for a single coil. |
| NmbsModel.Nmbs.WriteSingleRegister | modbus/nanomodbus.c:1679-1696 | The same for a single register. |
| NmbsModel.Nmbs.WriteMultipleCoils | modbus/nanomodbus.c:1699-1730 | The same for several coils. |
| NmbsModel.Nmbs.WriteMultipleRegisters | modbus/nanomodbus.c:1733-1764 | The same for several registers. |
| NmbsModel.Nmbs.ReadFileRecord | modbus/nanomodbus.c:1767-1796 | The same for a file read. |
| NmbsModel.Nmbs.WriteFileRecord | modbus/nanomodbus.c:1799-1831 | The same for a file write. |
| NmbsModel.Nmbs.ReadWriteRegisters | modbus/nanomodbus.c:1833-1877 | The same for the combined read and write. |
| ModbusSession.PollServes | modbus/nanomodbus.c:1543-1577 | A poll that finds a client's request meets its preconditions, makes exactly the client's calls and puts exactly the answer on the line that the client's call is proved to understand. |
| ModbusSession.PollHeeds | modbus/nanomodbus.c:1543-1577 | A poll that finds any request sent to unit 0 on the serial line makes its calls, with unit 0 (of a combined write and read only the write), and sends nothing, except for the exception when a callback fails or is missing. |
| ModbusBystander.PollOverhears | modbus/nanomodbus.c:1543-1577 | A poll that finds a request for another server and that server's answer makes no call and sends nothing; it leaves the line right behind the answer if and only if that is not a successful answer to a combined write and read (except one of a single register with nothing behind it). |
| ModbusBystander.Overhear | modbus/nanomodbus.c:356-370 | So the poll itself, which then returns no error. |
| ModbusSession.AnswerWithin | modbus/nanomodbus.c:393-720 | A server's answer meets the preconditions of the client's call, whose outputs have room for it. |
| ModbusExchange.ReadDiscrete | modbus/nanomodbus.c:1592-1622 | Client and server as two instances on one line: the client's function is called, the server polls what it sent. The callbacks are called with exactly the client's arguments, the client returns their verdict, the server has put on the line exactly the bytes the client read, and on success the client's output holds exactly the bits the callback gave. |
| ModbusExchange.ReadRegisters | modbus/nanomodbus.c:1624-1654 | The same for reading registers, with the registers the callback gave. |
| ModbusExchange.WriteSingleCoil | modbus/nanomodbus.c:1657-1676 | The same for a single coil. |
| ModbusExchange.WriteSingleRegister | modbus/nanomodbus.c:1679-1696 | The same for a single register. |
| ModbusExchange.WriteMultipleCoils | modbus/nanomodbus.c:1699-1730 | The same for several coils. |
| ModbusExchange.WriteMultipleRegisters | modbus/nanomodbus.c:1733-1764 | The same for several registers. |
| ModbusExchange.ReadFileRecord | modbus/nanomodbus.c:1767-1796 | The same for a file read, with the registers the callback gave. |
| ModbusExchange.WriteFileRecord | modbus/nanomodbus.c:1799-1831 | The same for a file write. |
| ModbusExchange.ReadWriteRegisters | modbus/nanomodbus.c:1833-1877 | The same for the combined read and write; the callback that reads has the write before it. |
| ModbusExchange.Broadcast | modbus/nanomodbus.c:1657-1877 | Any request but a plain read to unit 0: the client's function returns at once and reads nothing; a server that polls what it sent makes the calls and stays silent, unless a callback fails or is missing. |
| ModbusExchange.Session | modbus/nanomodbus.c:1543-1877 | Any run of requests of any kinds between the two instances: each returns the values its callbacks gave, or their exception, in the state its predecessors left, the callbacks are called in the order of the requests, and every byte sent has been read. |
| MonoVlsbModel.MonoVlsb.constructor | display/mono_vlsb.cpp:35-43 | An empty frame; it fits the buffer allocated for it if and only if the stride is the width (or 0, or larger with a single page or no width). |
| MonoVlsbModel.MonoVlsb.SetPixel | display/mono_vlsb.cpp:55-59 | Exactly one bit of the buffer changes, and no other pixel with it. |
| MonoVlsbModel.MonoVlsb.PixelsApart | display/mono_vlsb.cpp:55-63 | Different pixels of a frame are in different bytes or at different bits. |
| MonoVlsbModel.BitAtIs | display/mono_vlsb.cpp:61-63 | The topmost pixel of a byte is its lowest bit. |
| MonoVlsbModel.MonoVlsb.FillRect | display/mono_vlsb.cpp:65-75 | The countdown loops set exactly the rectangle. |
| Framebuf.Line | display/framebuf.cpp:38-97 | For all 16-bit endpoints in all octants: exactly the pixels of the rounded ideal line that are in the frame are set, and no others change. |
| Framebuf.Walk | display/framebuf.cpp:71-91 | The error-driven walk visits the rounded points, with 16-bit coordinates that never wrap. |
| Framebuf.Turn | display/framebuf.cpp:83-86 | The inner loop, whose variant allows a single turn, steps to the shorter coordinate of the next rounded point and leaves the error term that belongs to it. |
| LineGeometry.HalfPixel | display/framebuf.cpp:71-91 | After i steps along the longer axis and k along the shorter, -dx <= 2*(dy*i - dx*k) < dx. |
| LineGeometry.Accurate | display/framebuf.cpp:38-97 | Every point of the line lies within half a pixel of the ideal line, measured along the shorter axis. |
| LineGeometry.Ends | display/framebuf.cpp:93-95 | The walk starts at the first endpoint and the last point plotted is exactly the point it reaches. |
| LineGeometry.Connected | display/framebuf.cpp:71-91 | Consecutive points differ by at most one in each coordinate and are never the same. |
| Framebuf.Scroll | display/framebuf.cpp:191-229 | For all steps the in-place copy is as if through a second buffer: every pixel whose source is in the frame gets its old value, every other pixel keeps its own. |
| Framebuf.Blit | display/framebuf.cpp:154-189 | For all positions: exactly the part in the frame is copied, through the palette, except where the colour is the key. |
| RingBufferModel.RingBuffer.Put | uart/RingBuffer.cpp:18-27 | Appends the byte, or leaves the ring as it was exactly when it is full. |
| RingBufferModel.RingBuffer.Get | uart/RingBuffer.cpp:29-35 | Removes and returns the oldest byte; an empty ring stays empty. |
| RingBufferModel.RingBuffer.FullIff | uart/RingBuffer.cpp:14-16 | Full means that all slots but one hold a byte. |
| PicoUartModel.PicoUart.PutInterrupted | uart/RingBuffer.cpp:18-27 | With interrupts between any two steps of a put on a ring that is not full, the byte is queued exactly once, in order, and none is lost or sent twice. |
| PicoUartModel.PicoUart.Write | uart/PicoUart.cpp:70-90 | Under any interleaving with the handler: bytes accepted are bytes sent followed by the ring, in order; it stops early only on a full ring; on return a non-empty ring has its interrupt enabled, so no wake-up is lost; and no byte received meanwhile is lost unless the receive ring was full. |
| PicoUartModel.PicoUart.ReadBytes | uart/PicoUart.cpp:61-68 | Under any interleaving: returns the oldest bytes received and not yet read, in order, and all that were there if it returns fewer than asked; no byte received meanwhile is lost unless the receive ring was full. |
| PicoUartModel.PicoUart.IrqTx | uart/PicoUart.cpp:120-130 | The handler sends exactly as much of the front of the ring as the hardware has room for, and turns its interrupt off exactly when the ring is empty. |
| PicoUartModel.PicoUart.IrqRx | uart/PicoUart.cpp:111-118 | Of what has arrived the handler appends the first min(free, n) bytes to the ring, and exactly the rest is lost. |
| PicoUartModel.PicoUart.Interrupts | uart/PicoUart.cpp:14-20 | Any number of interrupts: bytes are lost only if the receive ring was full, nothing accepted or queued is, and the transmit interrupt goes off only with an empty ring. |

## Left out

- Wi-Fi, lwIP and socket calls, connecting and closing of the TCP connection, and the other network ports: foreign code.
- Real time: keep-alive intervals, time-outs and expiry are arbitrary answers; nothing is said about milliseconds.
- GPIO, I2C, EEPROM, SSD1306 commands, sensors, fonts and text: hardware plumbing without a deep property.
- The menus and main loop (State, PicoSW), status and settings messages: user interface and small clamps.
- The C client (MQTTClient-C), packet formatting, logging, samples: a near clone of the modelled client, and output only.
- Callbacks that call the client back while it delivers, and filter strings that the caller changes later: handlers are numbers and filters are values.
- Topic names given to the matcher as C strings: a name here is its bytes without a terminator.
- ConnectPacket.SerializeConnect: protocol versions other than the documented 3 and 4, for which the code computes no length for the variable header it writes; the same holds for ClientModel.Client.Connect.
- PublishPacket.SerializePublish: strings given both as C string and by length with different lengths; `PacketIO.StrLenIsWritten` says that exactly for these the length computed in advance is not the one written. The same holds for SubscribePacket.SerializeList and ConnectPacket.SerializeConnect.
- ClientModel.Client.constructor: send and read buffers larger than 268435460 bytes, the longest packet there is; without such buffers the size check refuses every packet that would be longer, so no method of the client has a condition on lengths.
- PacketReader.Read: buffers of fewer than five bytes, into which the code puts the header back without looking at their size; the same holds for PacketReaderNb.Transport.ReadNb.
- IPStackModel.IPStack.Write: stands for any network that takes part of the data, of which IPStack::write, which takes all or fails, is one; what lwIP does with the data afterwards is not modelled.
- ClientModel.Client.Keepalive: its timers run out at arbitrary moments, whenever they were last started, because the intervals are real time.
- Compiler reordering of the ring indexes between program and interrupt handler: each statement is taken to be one step in program order.
- The drawing shortcuts hline, vline, rect and fill, which are calls of fill_rect.
- MonoVlsbModel.MonoVlsb.FillRect: rectangles that reach outside the frame, which the code does not clip.
- Framebuf.Blit: blitting a frame onto itself; source and target have separate buffers here.
- The second constructor of mono_vlsb, which copies an image.
- nmbs_send_raw_pdu and nmbs_receive_raw_pdu_response, and the setters.
- NmbsModel.Nmbs.Poll: requests whose own size fields exceed the 260-byte buffer or the local arrays, or hold half a register, are excluded by its precondition, because the handlers take these sizes on trust; so are file reads whose reply would not fit (`ModbusLimits.FileReplyFits` says which) and file writes whose sub-requests reach behind the data. The preconditions of the handlers HandleReadRegisters, HandleWriteMultipleCoils, HandleWriteMultipleRegisters, HandleReadFileRecord, HandleWriteFileRecord and HandleReadWriteRegisters are the parts of this one that concern them.
- NmbsModel.Nmbs.RecvReadFileRecordRes: responses whose inner and outer sizes disagree are excluded; the code would compute its CRC over bytes it did not receive.
- NmbsModel.Nmbs.ReadFileRecord: a null output, for which the code skips the checks of the reply's content, is not modelled.
- NmbsModel.Nmbs.RecvWriteFileRecordRes: responses whose record length disagrees with their size are excluded for the same reason.
- NmbsModel.Nmbs.RecvReadRegistersRes: responses with half a register are excluded for the same reason, and those with more registers than the output has cells, behind which the code would store them (`ModbusLimits.OtherNumberOfRegisters`).
- NmbsModel.Nmbs.RecvReadDiscreteRes: responses with more bytes than the output has cells (`ModbusLimits.AnyNumberOfBits`).
- NmbsModel.Nmbs.ReadRegisters: meets its response on the same conditions, as do ReadDiscrete, ReadWriteRegisters, WriteFileRecord and the other client functions; `ModbusSession.AnswerWithin` and `ModbusDamage.DamagedWithin` prove them of a server's answers.
- ModbusFile.CheckedIff: sub-requests that reach behind the data, where the code reads what an earlier message left in the buffer.
- ModbusEndToEnd.EndToEnd: broadcasts are not part of it, because they have no answer; `ModbusSession.PollHeeds` and `ModbusExchange.Broadcast` say what becomes of them.
- Registers that a callback leaves unset read as zero here, as they do in the code's zeroed buffers; in file reads and the combined read and write the code would leave old memory in them.
