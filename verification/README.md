# touchHand register-access layer, modelled in Dafny

This project models the register-access and data-shaping layer of the
touchHand script for a dexterous robotic hand. The script talks to the hand
over Modbus/TCP. The model covers:

- the fixed register directory (`regdict`): fifteen symbolic names, each
  mapped to a holding-register base address;
- the generic read primitive (`read_register`) and the write wrapper
  (`write_register`);
- the semantic accessors:
  - `write6` masks six set-points to 16 bits and sends them as one
    "Write Multiple Registers" request (section 6.12 of the Modbus
    Application Protocol Specification V1.1b3);
  - `read6` returns a vector of six raw registers, or three status registers
    split into low and high bytes, each fetched with "Read Holding
    Registers" (section 6.3 of the same specification);
  - `read96` reads the 80-register tactile block;
- the frame decoder: `create_2d_array` reshapes a flat read row-major, and
  `array_to_image` gives the image its shape;
- one cycle of the polling loop, from `read96` to the reshaped grid.

The Modbus client is not modelled. A `Client` is any total function from a
read request to the device's `Response`: the registers, or an error
response. `write6` returns the request it would hand to the client.
`read6` prints its result; here it returns that result instead, as a
`ReadOutcome`. A usage message becomes `UnknownWriteName` or
`UnknownReadName`. "No data" becomes `NoData`. An exception becomes an
outcome value (`IndexError`, `ShapeMismatch`).

Python's `x & 0xFFFF` on an unbounded integer is `x % 0x10000`.
`(x >> 8) & 0xFF` is `(x / 0x100) % 0x100`. Dafny's `/` and `%` with a
positive divisor agree with Python's for negative `x` as well.

Files:
- `registers.dfy`: module `Registers`, the directory and the accessor name groups.
- `modbus.dfy`: module `Modbus`, the requests, the responses and `read_register`.
- `accessors.dfy`: module `Accessors`, covering `write_register`, `write6`,
  `read6` and `read96`.
- `frame.dfy`: module `Frame`, covering `create_2d_array`, `array_to_image`
  and the poll cycle.

## Model

| member | source | states |
|---|---|---|
| Registers.DirectorySize | touchHand/main.py:7-23 | the directory holds exactly fifteen distinct names |
| Registers.AccessorAddresses | touchHand/main.py:12-22 | the directory puts angleSet at 1486, forceSet at 1498, speedSet at 1522, angleAct at 1546, forceAct at 1582, errCode at 1606, statusCode at 1612, temp at 1618 and index at 4320 |
| Registers.AddressesFit | touchHand/main.py:7-23 | every base address fits a 16-bit Modbus address |
| Registers.AccessorNamesRegistered | touchHand/main.py:43-104 | every name accepted by `write6`, `read6` or `read96` is in the directory, so `regdict[reg_name]` never fails; the write names are vector names; the vector, status and grid groups are disjoint |
| Registers.AccessorBlocksDisjoint | touchHand/main.py:7-23 | the register blocks the accessors read (6 per vector name, 3 per status name, 80 at `index`) never overlap |
| Modbus.ReadRegister | touchHand/main.py:37-40 | an error response gives the empty list; otherwise the result is the response's registers |
| Modbus.ErrorIsShortRead | touchHand/main.py:37-40 | for any positive count, a failed read gives fewer registers than requested; a read that gives at least `count` registers did not fail |
| Accessors.Low16 | touchHand/main.py:46 | `x & 0xFFFF` is the unique value in [0, 65535] congruent to `x` modulo 2^16 |
| Accessors.LowByte | touchHand/main.py:78 | `x & 0xFF` is the unique value in [0, 255] congruent to `x` modulo 256 |
| Accessors.HighByte | touchHand/main.py:79 | `(x >> 8) & 0xFF` lies in [0, 255], and the low byte plus 256 times it is `x & 0xFFFF`, for every integer `x` |
| Accessors.Signed16 | touchHand/main.py:42-50 | reading a wire word as a signed 16-bit value gives a value that masks back to the same word |
| Accessors.Low16RoundTrip | touchHand/main.py:42-50 | a set-point in [0, 65535] is sent unchanged; any value in the signed 16-bit range is recovered from its wire word; the sentinel -1 is sent as 0xFFFF |
| Accessors.ByteSplitRoundTrip | touchHand/main.py:78-79 | for a 16-bit word, low byte + 256 × high byte is the word |
| Accessors.WriteRegister | touchHand/main.py:32-34 | the request carries the given address and values unchanged |
| Accessors.Write6 | touchHand/main.py:42-50 | a name outside {angleSet, forceSet, speedSet} writes nothing; an accepted name with fewer than 6 values raises an index error and writes nothing; otherwise it sends exactly 6 values to `regdict[name]`, value i being `val[i] & 0xFFFF`, in a request that the protocol admits |
| Accessors.SplitBytes | touchHand/main.py:76-82 | the status decoding gives two values per register |
| Accessors.SplitBytesAt | touchHand/main.py:73-82 | output byte 2i is the low byte of register i and byte 2i+1 its high byte |
| Accessors.SplitBytesAreBytes | touchHand/main.py:78-82 | every decoded status value lies in [0, 255] |
| Accessors.JoinBytes | touchHand/main.py:73-82 | reassembling (low, high) pairs gives half as many words; this is the inverse of the status decoding |
| Accessors.JoinSplitBytes | touchHand/main.py:73-82 | for registers holding 16-bit words, joining the decoded bytes gives back the registers: the status decoding loses nothing |
| Accessors.Read6 | touchHand/main.py:52-91 | for a vector name: "no data" when fewer than 6 registers come back, otherwise the registers read, unchanged and in order. For a status name: "no data" when fewer than 3 come back, otherwise the low/high byte split of the registers read. Any other name gives the usage outcome. Each read goes to `regdict[name]` |
| Accessors.StatusReadDecodes | touchHand/main.py:76-82 | for each status register in [0, 65535], its two output values are bytes, and low + 256 × high gives the register back |
| Accessors.Read96 | touchHand/main.py:100-104 | `index` reads 80 registers at 4320; any other name returns nothing |
| Accessors.AccessorReadsValid | touchHand/main.py:52-104 | every read issued by `read6` and `read96` asks for 1 to 125 registers inside the 16-bit address space, as section 6.3 requires |
| Frame.Create2dArray | touchHand/main.py:94-98 | fails exactly when the element count is not m·n; otherwise gives m rows whose row-major reading is the elements |
| Frame.Rows | touchHand/main.py:97 | cutting m·n elements into rows gives m rows |
| Frame.RowsAt | touchHand/main.py:97 | each row of the reshape has n cells, and cell (r, c) is element r·n + c |
| Frame.FlattenRows | touchHand/main.py:97 | flattening the reshaped rows gives back the elements |
| Frame.FlattenLength | touchHand/main.py:97 | an m-by-n grid flattens to m·n elements |
| Frame.RowsFlatten | touchHand/main.py:97 | cutting the row-major reading of an m-by-n grid into rows of n gives back the grid |
| Frame.ReshapeIsGrid | touchHand/main.py:94-98 | with m·n elements the reshape succeeds and is m by n |
| Frame.ReshapeCell | touchHand/main.py:94-98 | cell (r, c) of a successful reshape is element r·n + c |
| Frame.ReshapeFlattenRoundTrip | touchHand/main.py:94-98 | the reshape of the row-major reading of any m-by-n grid gives back that grid, so reshaping is a bijection |
| Frame.ArrayToImage | touchHand/main.py:106-111 | the image is 10 × 8 × 3; channels 1 and 2 are 0; channel 0 (the source's `red_channel`) is a byte that depends on the cell's raw value alone |
| Frame.PollFrame | touchHand/main.py:133-134 | one poll cycle fails with a shape mismatch exactly when the read of 80 registers at 4320 does not give 80 registers; otherwise it gives 10 rows that read back row-major as those registers |
| Frame.PollFrameOutcome | touchHand/main.py:133-134 | a poll cycle yields a grid exactly when the transport answers the read of 80 registers at 4320 with 80 registers; a transport error becomes a shape mismatch; the grid reads back row-major as the registers |
| Frame.PollFrameCells | touchHand/main.py:133-134 | cell (r, c) of a polled grid is register 8r + c of the block |

## Left out

- `open_modbus`, `client.close` and the `ModbusTcpClient` calls are network I/O in a foreign library. A read is a `Client` function from request to response. A write is the request value that `write6` returns. The success or failure of `client.write_registers` is ignored by the source and is not modelled.
- The `__main__` polling loop is not modelled: the OpenCV window, resize, display, the 200 ms `waitKey`, the `q` key, `KeyboardInterrupt` and `time.sleep`. One cycle of its body up to the grid is `Frame.PollFrame`.
- Console output is not modelled. The values `read6` prints are its result, and its messages are the `NoData` and `UnknownReadName` outcomes.
- Frame.ArrayToImage: the channel-0 value is the parameter `red`, not the source's `(raw / 2000.0 * 255).astype(uint8)`. That is a floating-point computation whose cast is platform-dependent above 2000.
- Frame.ArrayToImage: channels are described by index. The source names channel 0 `red_channel`, but `cv2.imshow` (touchHand/main.py:138) reads pixels in blue-green-red order, so the data in channel 0 is shown as blue. The display is not modelled.
- Frame.ArrayToImage: requires a 10-by-8 grid. Numpy broadcasting would also accept 1×8, 10×1 or 1×1 grids and reject every other shape. The one caller passes a 10-by-8 grid.
- Frame.Create2dArray: `m` and `n` are natural numbers. Numpy's handling of negative dimensions (including -1 as "infer") is not modelled; the one caller passes 10 and 8.
- Python type errors are not modelled: a value that is not an integer, or a `val` that is not indexable. All values are integers.
- `read6` on a vector name passes through every register the transport returns, even more than six. It does not cut the result to exactly six. The model follows the code.
- `read96` does not check the number of registers, and a failed read gives the empty list. A mismatch shows up only when the poll cycle reshapes the result (`Frame.PollFrameOutcome`).
