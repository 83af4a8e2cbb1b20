# RoboPeak USB display: a verified model

This project models the display path of the RoboPeak USB display software and proves what it promises: pixels go from a
framebuffer through a dirty rectangle, a run-length encoder and a packetizer into URBs taken from a pool of tickets (kernel
driver), or through the batch counterparts of the same steps (user-mode SDK), or through the frame chunks of the Windows
drivers. Of the vendored libusbx it models the event-handling hand-over between threads, the timeout-sorted list of flying
transfers and the descriptor parsers; of the vendored getopt the scan that permutes the argument vector in place.

Files, bottom up:

- `Bytes`, `LinkedList`: octets and words; circular doubly linked lists as pointer assignments on a memory of links.
- `RleFormat`, `RleEncoders`, `RleComparison`: the run-length format with a decoder, both encoders as state machines, their
  bounds and their differences. `SdkRle` is the SDK's in-place encoder, `RleStream` the kernel's streaming one.
- `Packets`, `SdkTransfer`, `UrbStream`: the stream of packets that open with a command octet, built at once or piece by piece.
  `DisplayDevice` is a reader of bitblt commands, written from the protocol's layout.
- `DisplayTickets`, `TicketBundle`, `Reservation`, `BitbltEncoder`, `ImageSender`: the ticket pool with completions at any
  moment, a sender's bundle, the reservation, the packet encoder and the image sender. `SdkBitblt` is the SDK's counterpart.
- `Framebuffer`, `FramebufferDriver`: the coherence protocol between framebuffer and screen, and the fields that carry it.
- `EventLock`, `FlyingList`, `DescriptorFormat`, `Descriptors`, `DescriptorRoundTrip`, `DescriptorReprint`, `DescriptorParser`:
  libusbx.
- `Getopt`, `GetoptPermute`, `FrameChunks`: the block exchange and the scan around it; frames of the Windows drivers.

Where the sources do things step by step, so do the methods here; each is proved against a function or a predicate about
which the lemmas then speak. The firmware is not part of the repository: the decoder is written from the protocol header.

What came out differently from what comments in the sources, or a first reading, suggest:

- The SDK's packet count is content/(packet size - 1) + 1, so it, too, appends a bare command octet when the content just
  fills a packet. Kernel and SDK therefore put the same octets on the wire for the same header and payload
  (`SdkBitblt.SameAsKernel`).
- A command that fills its reserved packets to the last octet can never be sent by the kernel driver, as the next ticket is
  fetched at once: the send ends in the BUG_ON if and only if no submission fails and the command, as long as it really is,
  equals the capacity (`ImageSender.TrySendImage`, `ImageSender.FitsUnlessExact`). With 64-octet packets no rectangle of the
  screen is such a command; with 512-octet packets a compressed 320x202 image can be one, with 1024-octet packets a raw
  179x180 image always is (`Reservation.ScreenExactIff`, `ImageSender.HighSpeedExactFill`,
  `ImageSender.SuperSpeedExactFill`).
- After a flush whose submission fails, the unused tickets of the bundle stay out of the pool for good, and no later completion
  reports "all finished" (`DisplayTickets.LostForGood`, `ImageSender.LaterUpdates`).
- The SDK's compressor writes its first section before it looks for a pixel, so an empty image overruns its buffer
  (`SdkRle.RleCompress`).
- A fill hint clears the whole dirty rectangle though only its own rectangle is sent (`Framebuffer.FillLosesPixel`,
  `Framebuffer.FillLosesFromReset`).
- The deferred-I/O handler takes the physical address of a page for its offset from `mmio_start`, which this driver never sets;
  the framebuffer is at `screen_base`. A page is covered exactly when its address happens to tell where it lies
  (`FramebufferDriver.PageCoveredIff`), and writes through the mapping are lost otherwise
  (`FramebufferDriver.MappedWriteLost`).
- A transfer whose timeout is changed to zero keeps the deadline of its last submission (`FlyingList.CalculateTimeout`), and a
  transfer placed behind flagged ones only is missed by the timer (`FlyingList.TimerTracksIff`).
- A class-specific descriptor cut short right behind an interface header leaves that header's endpoint count with no endpoints
  (`Descriptors.AltCounts`).
- When a control-pipe write fails in a thread that does not hold the events lock, a waiting thread can be left without anyone
  to wake it; in a callback, where the lock is held, the failure does no harm (`EventLock.StrandsIff`).
- After a close inside a callback the active flag is off while the handler still holds the lock, so threads that come to wait
  try for the lock again and again instead (`EventLock.HandlerFlag`).

## Model

| member | source | states |
|---|---|---|
| RleFormat.SectionsRoundTrip | drivers/common/inc/protocol.h:93-95 | A decoder that cuts an octet string by its header octets gets back exactly the sections that were encoded |
| RleFormat.EncodeInjective | drivers/common/inc/protocol.h:93-95 | Two well-formed section lists have the same octets only when they are the same list |
| RleEncoders.ScanConsistent | drivers/linux-driver/src/usbhandlers.c:693-759 | At every pixel, for both encoders: closed and pending sections together stand for the pixels consumed, every section fits the format, and the pending one ends in the last pixel |
| RleEncoders.DecodeCompress | drivers/linux-driver/src/usbhandlers.c:657-759 | Decoding either encoder's output gives the pixels back, for every input |
| RleEncoders.CompressLength | drivers/linux-driver/src/usbhandlers.c:657-691 | The size of the output counted section by section |
| RleEncoders.StepCharged | drivers/usermode-sdk/rpusbdisp-drv/src/rle.cc:39-146 | The charging step: the header of a literal cut short is paid for by the run that cut it, a full literal by its own 128 pixels, a run of one by the full run before it |
| RleEncoders.CompressBound | drivers/linux-driver/src/usbhandlers.c:482-485 | For n pixels both encoders emit at most 2n + ceil(n/128) octets, the estimate of both sources |
| RleEncoders.NoPairsReachBound | drivers/linux-driver/src/usbhandlers.c:482-485 | The estimate is the least possible: pixels of which no two neighbours are equal take all of it, for every n |
| RleEncoders.ClosedPrefix | drivers/linux-driver/src/usbhandlers.c:668-759 | What has gone out after any number of pixels is the beginning of what has gone out later, and of the whole output |
| RleComparison.SameMeaning | drivers/usermode-sdk/rpusbdisp-drv/src/rle.cc:70-76 | Kernel and SDK output decode to the same pixels |
| RleComparison.KernelNeverLonger | drivers/usermode-sdk/rpusbdisp-drv/src/rle.cc:70-76 | The kernel's output is never longer than the SDK's |
| RleComparison.SameBytesIff | drivers/usermode-sdk/rpusbdisp-drv/src/rle.cc:70-76 | The two outputs are the same octets if and only if no maximal run is longer than 128 and leaves one pixel over |
| SdkRle.AbsorbIntoRun | drivers/usermode-sdk/rpusbdisp-drv/src/rle.cc:66-92 | A pixel after an open run: the octets written become those of the encoder's next state, whichever branch is taken |
| SdkRle.AbsorbIntoLiteral | drivers/usermode-sdk/rpusbdisp-drv/src/rle.cc:96-139 | The same for an open literal, with its header rewritten in place |
| SdkRle.EndLiteral | drivers/usermode-sdk/rpusbdisp-drv/src/rle.cc:99-121 | A literal that ends in a pair is turned into a run in place, or loses its last pixel, the write position moving back over it, to a new run |
| SdkRle.ProgressMeans | drivers/usermode-sdk/rpusbdisp-drv/src/rle.cc:62-144 | At every loop point the octets written so far decode to exactly the pixels consumed so far, and lie inside the estimated buffer |
| SdkRle.ConsumeRun | drivers/usermode-sdk/rpusbdisp-drv/src/rle.cc:65-92 | The first inner loop keeps that invariant and consumes at least one pixel |
| SdkRle.ConsumeLiteral | drivers/usermode-sdk/rpusbdisp-drv/src/rle.cc:95-139 | The second inner loop does too |
| SdkRle.RleCompress | drivers/usermode-sdk/rpusbdisp-drv/src/rle.cc:31-155 | For an even number of octets, one pixel at least, the result decodes to the buffer's pixels and stays within the estimate; an odd length is refused; the empty buffer is exactly the input for which the first write has no room |
| Packets.StreamLength | drivers/usermode-sdk/rpusbdisp-drv/src/rpusbdisp.cc:104-117 | A command octet per full packet is all that packetizing adds |
| Packets.StreamAppend | drivers/linux-driver/src/usbhandlers.c:586-637 | Content may be packetized piece by piece: a piece that just fills a packet also opens the next |
| Packets.StreamBegun | drivers/linux-driver/src/usbhandlers.c:586-637 | The packets of content that has only begun are the beginning of the packets of the whole |
| Packets.StripStream | drivers/linux-driver/src/usbhandlers.c:626-632 | A device that drops the first octet of every packet gets the content back |
| Packets.StripAllIsStrip | drivers/linux-driver/src/usbhandlers.c:601-624 | When every URB but the last holds whole packets, cutting them into packets one by one or as one stream gives the same |
| DisplayDevice.Reads | drivers/common/inc/protocol.h:56-63 | A header laid out as in the protocol, with its payload, is read as the flag, the numbers and the pixels that were put into it |
| DisplayDevice.ShownExactly | drivers/common/inc/protocol.h:56-63 | With a pixel for each place, each place of the announced rectangle gets its own and no other place any |
| DisplayDevice.PacketHeads | drivers/common/inc/protocol.h:41-50 | Every packet of the stream opens with the command's octet, the first one with its flags |
| SdkTransfer.PutPacket | drivers/usermode-sdk/rpusbdisp-drv/src/rpusbdisp.cc:123-142 | One turn of the SDK's loop lays down one packet of the command stream, and fills the buffer to its last octet with the last |
| SdkTransfer.BuildTransfer | drivers/usermode-sdk/rpusbdisp-drv/src/rpusbdisp.cc:98-143 | The transfer is the command stream of packet and payload, exactly as long as the buffer computed for it, and strips to their octets without the command |
| SdkTransfer.StripTransfer | drivers/usermode-sdk/rpusbdisp-drv/src/rpusbdisp.cc:98-143 | The device gets back the rest of the packet and the payload |
| SdkBitblt.Bitblt | drivers/usermode-sdk/rpusbdisp-drv/src/rpusbdisp.cc:173-199 | The SDK's bitblt: a device that goes by the protocol reads x, y, width, height, operation and flag as they were given, and exactly the pixels of the buffer, compressed or not, unless compression is asked for an image without a pixel |
| SdkBitblt.Header | drivers/usermode-sdk/rpusbdisp-drv/src/rpusbdisp.cc:192-196 | The nine octets read back as the numbers they were made of |
| SdkBitblt.DeviceUnderstands | drivers/usermode-sdk/rpusbdisp-drv/src/rpusbdisp.cc:98-143 | Any transfer that shows such a header and pixels is understood by the device as that command |
| SdkBitblt.SameAsKernel | drivers/usermode-sdk/rpusbdisp-drv/src/rpusbdisp.cc:98-143 | The octets of the kernel's URBs for an image are those of the SDK's transfer always in raw mode, and in RLE mode if and only if no run longer than 128 leaves one pixel over |
| SdkBitblt.TransferInjective | drivers/usermode-sdk/rpusbdisp-drv/src/rpusbdisp.cc:98-143 | Two transfers of one command are the same octets only for the same payload |
| LinkedList.PathDistinct | drivers/linux-driver/src/usbhandlers.c:338-343 | A forward chain that reaches its end holds no node twice |
| LinkedList.AddTailFields | drivers/usermode-sdk/deps/libusbx-1.0.17/libusb/libusbi.h:118-126 | The four pointer assignments of list_add_tail change exactly these links and no other |
| LinkedList.AddFields | drivers/usermode-sdk/deps/libusbx-1.0.17/libusb/libusbi.h:109-116 | The same for list_add |
| LinkedList.DelFields | drivers/usermode-sdk/deps/libusbx-1.0.17/libusb/libusbi.h:128-133 | The same for list_del |
| LinkedList.InsertedRing | drivers/usermode-sdk/deps/libusbx-1.0.17/libusb/libusbi.h:109-126 | Inserting a node anywhere keeps a circular list linked in both directions, with the node at that place |
| LinkedList.DeletedRing | drivers/usermode-sdk/deps/libusbx-1.0.17/libusb/libusbi.h:128-133 | Deleting one keeps the rest of the list as it was |
| LinkedList.AppendAnywhere | drivers/linux-driver/src/usbhandlers.c:357 | A node appended while still linked elsewhere ends up last; all other forward links but the head's and the former last node's stay |
| LinkedList.TakeFirst | drivers/linux-driver/src/usbhandlers.c:340-341 | Taking the first node off the pool leaves the rest of the pool and the bundle as they are |
| LinkedList.PutLast | drivers/linux-driver/src/usbhandlers.c:342 | Adding it to the bundle leaves the pool as it is |
| DisplayTickets.Ledger.Conservation | drivers/linux-driver/src/usbhandlers.c:315-368 | Pool, held and flying tickets add up to all tickets, and the pool is full exactly when none is held or flying |
| DisplayTickets.Device.constructor | drivers/linux-driver/src/usbhandlers.c:875-938 | The allocated tickets are all pooled, each with its full transfer length |
| DisplayTickets.Device.Sell | drivers/linux-driver/src/usbhandlers.c:315-347 | All or nothing: the first tickets of the pool become an intact list of the bundle, the rest of the pool stays, and the count with it |
| DisplayTickets.Device.MoveFront | drivers/linux-driver/src/usbhandlers.c:338-343 | The selling loop on the heap lists |
| DisplayTickets.Device.Return | drivers/linux-driver/src/usbhandlers.c:350-368 | The ticket joins the pool's tail; "all finished" is reported exactly when nothing is held or flying; tickets held by others keep their forward links and lengths |
| DisplayTickets.Device.OnTransferFinished | drivers/linux-driver/src/usbhandlers.c:212-240 | A completion resets the length and returns the ticket; the unsync flag and the scheduled flush follow the transfer's status |
| DisplayTickets.Device.Completions | drivers/linux-driver/src/usbhandlers.c:212-240 | Any number of completions in any order keep the pool valid and leave held tickets alone |
| DisplayTickets.HeldStaysTransitive | drivers/linux-driver/src/usbhandlers.c:350-368 | What holders rely on survives any sequence of returns |
| DisplayTickets.LostForGood | drivers/linux-driver/src/usbhandlers.c:559-583 | Tickets that their holder neither submits nor returns stay out of the pool in every run of sales, submissions and returns by others: the pool stays smaller by that many, and no return ever finds all transfers finished |
| TicketBundle.Bundle.UndisturbedByReturns | drivers/linux-driver/src/usbhandlers.c:350-368 | While earlier tickets complete and are relinked into the pool without being unlinked, the chain from the current node to the bundle's head stays an intact path of the sender's own tickets |
| TicketBundle.Bundle.CurrentIsMine | drivers/linux-driver/src/usbhandlers.c:544-557 | The ticket the sender stands on is its own, at full length, and its link leads to the next of the bundle or to the head |
| TicketBundle.Bundle.AfterSubmit | drivers/linux-driver/src/usbhandlers.c:605-613 | Submitting the current ticket leaves the rest intact |
| TicketBundle.Bundle.AfterReturn | drivers/linux-driver/src/usbhandlers.c:544-557 | Returning the current ticket to the pool leaves the rest intact |
| TicketBundle.Bundle.Leftover | drivers/linux-driver/src/usbhandlers.c:559-583 | At any point the tickets held beyond those held before the sale are exactly the ones ahead of the sender |
| UrbStream.StreamingFill | drivers/linux-driver/src/usbhandlers.c:590-599 | Octets that leave room in the open packet extend the command stream |
| UrbStream.StreamingFull | drivers/linux-driver/src/usbhandlers.c:601-632 | Octets that fill it extend the stream by themselves and the next command octet, in this URB or the next |
| UrbStream.StreamingReceived | drivers/linux-driver/src/usbhandlers.c:559-637 | With the open URB submitted too, the device gets exactly the content |
| UrbStream.StreamingCapacity | drivers/linux-driver/src/usbhandlers.c:601-624 | With an URB open the content is short of what the URBs so far can carry |
| Reservation.RequiredIsLeast | drivers/linux-driver/src/usbhandlers.c:488-490 | The reserved tickets hold the worst-case content, and one less would not |
| Reservation.ExactFillIff | drivers/linux-driver/src/usbhandlers.c:488-490 | The worst case fills the reserved URBs to the last octet if and only if it is a multiple of what a URB carries |
| Reservation.RawNeverExact | drivers/linux-driver/src/usbhandlers.c:470-517 | With packets of 16, 32 or 64 octets no raw image reserves an exact fill |
| Reservation.ScreenExactIff | drivers/linux-driver/src/usbhandlers.c:470-517 | On the 320x240 screen, for each packet size of 16 to 1024 octets and both modes, exactly three rectangles reserve an exact fill: 320x202 compressed with packets of 512, and 179x180 and 180x179 raw with packets of 1024 |
| BitbltEncoder.EncodingContext.Init | drivers/linux-driver/src/usbhandlers.c:470-517 | Tickets are taken if and only if the device is alive, the worst case needs at most ten and the pool has them; then the sender stands on an intact bundle of that many |
| BitbltEncoder.HeaderContent | drivers/linux-driver/src/usbhandlers.c:533-537 | The header's nine octets read back as x, y, right + 1 - x, bottom + 1 - y, each cut to 16 bits, and the copy operation |
| BitbltEncoder.EncodingContext.CommandHeader | drivers/linux-driver/src/usbhandlers.c:520-541 | The command octet with its flags and that header open the command stream |
| BitbltEncoder.EncodingContext.SubmitPassed | drivers/linux-driver/src/usbhandlers.c:605-613 | A submission hands the URB's octets over or returns the ticket; the rest of the bundle stays intact, whatever completes meanwhile |
| BitbltEncoder.EncodingContext.NextUrb | drivers/linux-driver/src/usbhandlers.c:603-624 | A full URB goes out whole and the next ticket is opened; the sender falls off its bundle only after a submission that worked |
| BitbltEncoder.EncodingContext.FillPacket | drivers/linux-driver/src/usbhandlers.c:601-632 | Filling a packet keeps the command stream; falling off the bundle means that the content fills all its packets |
| BitbltEncoder.EncodingContext.TransferData | drivers/linux-driver/src/usbhandlers.c:586-637 | The data is appended to the content, the command stream kept, however it falls on packets and URBs; when a submission fails a beginning of the data is, and the URBs are the beginning of that stream |
| BitbltEncoder.EncodingContext.Cleanup | drivers/linux-driver/src/usbhandlers.c:544-557 | Terminates with every unused ticket of the bundle back in the pool |
| BitbltEncoder.EncodingContext.Flush | drivers/linux-driver/src/usbhandlers.c:559-583 | The open URB goes out with what it holds and the unused tickets go back; if its submission fails they do not |
| BitbltEncoder.EncodingContext.Received | drivers/linux-driver/src/usbhandlers.c:559-583 | What the URBs carry when the open one is submitted: exactly the content, short of the bundle's capacity |
| RleStream.RleContext.FlushSection | drivers/linux-driver/src/usbhandlers.c:668-691 | The pending section goes out as its octets, and the buffer is empty again |
| RleStream.RleContext.CompressPixel | drivers/linux-driver/src/usbhandlers.c:693-759 | One pixel takes the streaming encoder to the next state of its specification; even when it fails, what it has sent is the beginning of the sections closed by then |
| RleStream.EmittedAll | drivers/linux-driver/src/usbhandlers.c:814-819 | After the last flush the content is the compressed image |
| ImageSender.RectAt | drivers/linux-driver/src/usbhandlers.c:793-812 | Pixel (column, row) of the sent rectangle is the framebuffer's pixel there |
| ImageSender.PaintedPayload | drivers/linux-driver/src/usbhandlers.c:693-812 | The payload paints the pixels it was made of, in both modes |
| ImageSender.SendRows | drivers/linux-driver/src/usbhandlers.c:793-812 | The pointer walk takes in the rectangle row by row |
| ImageSender.FitsUnlessExact | drivers/linux-driver/src/usbhandlers.c:607-624 | The reserved packets always hold the command, and leave room for its last command octet if and only if the worst case is no exact fill or the image stays below it |
| ImageSender.HighSpeedExactFill | drivers/linux-driver/src/usbhandlers.c:607-624 | Inputs that run into the BUG_ON: with packets of 512 octets, in RLE mode, every 320x202 image of which no two neighbouring pixels are equal takes exactly its two reserved URBs |
| ImageSender.HighSpeedExample | drivers/linux-driver/src/usbhandlers.c:607-624 | One such image: two pixels in turn |
| ImageSender.SuperSpeedExactFill | drivers/linux-driver/src/usbhandlers.c:607-624 | With packets of 1024 octets every raw image of 179x180 pixels takes exactly its one reserved URB |
| ImageSender.Transmit | drivers/linux-driver/src/usbhandlers.c:784-828 | Aborted and FlushFailed are answered exactly when one submission was refused, the only one; with how many URBs gone on each way out; on every way out but a failed flush the bundle is empty; after a failed flush exactly one more ticket than URBs submitted has been passed; the URBs are always the beginning of the SDK's octets for the command; it runs into the BUG_ON only when the command's own length reaches the capacity |
| ImageSender.TrySendImage | drivers/linux-driver/src/usbhandlers.c:763-829 | With tickets in hand and no submission refused it reports success if and only if the command, compressed as it is, is shorter than the reserved packets, and runs into the BUG_ON if and only if it is exactly as long; it gives up exactly when a submission is refused, and then at once. On success a device that goes by the protocol reads the rectangle, the flag and exactly the rectangle's pixels, and the URBs are the SDK's octets; in every other case a beginning of those octets has gone out, or nothing when it is empty or refused tickets; it is refused tickets exactly when the reservation fails; every exit returns all tickets except a failed flush, which keeps exactly those from the current node on |
| ImageSender.DeviceUnderstands | drivers/linux-driver/src/usbhandlers.c:520-541 | What is delivered is read by the device as the command for this rectangle |
| ImageSender.DeviceShows | drivers/linux-driver/src/usbhandlers.c:784-828 | On a screen whose coordinates fit 16 bits the device shows the framebuffer's own pixel at every place of the rectangle, and touches no other place |
| ImageSender.LaterUpdates | drivers/linux-driver/src/usbhandlers.c:763-829 | Any number of later sends and completions leave the tickets that a failed flush kept where they are, and the pool smaller by that many |
| Framebuffer.StepCoherent | drivers/linux-driver/src/fbhandlers.c:102-179 | Each step of an update, a writer, the sender, a failed transfer, binding or unbinding keeps coherence |
| Framebuffer.RunCoherent | drivers/linux-driver/src/fbhandlers.c:102-179 | No lost screen update: in every run every pixel wrong on the screen is in the dirty rectangle, or the unsync flag is 1, or its writer has yet to enter its update |
| Framebuffer.FreshCoherent | drivers/linux-driver/src/fbhandlers.c:95-100 | The initial state is coherent |
| Framebuffer.UnboundIdle | drivers/linux-driver/src/fbhandlers.c:110 | With no device bound an update enters no rectangle and sends nothing, and losing the device keeps the state coherent |
| Framebuffer.Synchronised | drivers/linux-driver/src/fbhandlers.c:511-524 | With no writer on its way, the update started when all transfers are done makes the screen equal to the framebuffer, and when none is started it is already |
| Framebuffer.ReadLast | drivers/linux-driver/src/fbhandlers.c:167-173 | A pixel read again during a send goes out as it was when it was read last |
| Framebuffer.FillKeeps | drivers/linux-driver/src/fbhandlers.c:139-151 | A fill hint whose rectangle takes in every pixel that may be wrong keeps coherence, whether the send works or not |
| Framebuffer.FillLosesPixel | drivers/linux-driver/src/fbhandlers.c:139-151 | When it leaves out one such pixel, there is a coherent state with that dirty rectangle and flag that the hint makes incoherent |
| Framebuffer.FillLosesFromReset | drivers/linux-driver/src/fbhandlers.c:139-151 | A run from the reset state that ends so: a device is bound and in step, the update for one pixel fails, another pixel is filled; the first stays wrong with nothing dirty, nothing due and nobody on the way |
| FramebufferDriver.FbPrivate.constructor | drivers/linux-driver/src/fbhandlers.c:95-100 | The private data starts out fresh |
| FramebufferDriver.FbPrivate.ClearDirtyRect | drivers/linux-driver/src/fbhandlers.c:87-93 | The rectangle is clean and the flag off |
| FramebufferDriver.FbPrivate.DisplayUpdate | drivers/linux-driver/src/fbhandlers.c:102-179 | The update on the fields is a run of the protocol that begins with it; coherence survives whatever others do meanwhile |
| FramebufferDriver.FbPrivate.AllTransferDone | drivers/linux-driver/src/fbhandlers.c:511-524 | An update of the whole screen is started exactly when the dirty flag is set or the unsync flag is 1 |
| FramebufferDriver.DefioRows | drivers/linux-driver/src/fbhandlers.c:259-302 | The rows are exactly those from the least first row to the greatest last row of the pages whose address passes the range test, computed from the address; the wrong way round exactly when none passes |
| FramebufferDriver.PageCoveredIff | drivers/linux-driver/src/fbhandlers.c:271-301 | The update for a page takes in all its pixels if and only if the page passes the range test and the offset computed from its address is where it lies in the framebuffer |
| FramebufferDriver.FbPrivate.DefioHandler | drivers/linux-driver/src/fbhandlers.c:259-302 | The handler is a run of the protocol that begins with an update for these rows in the name of all who wrote to the listed pages; when every page is where its address says, it keeps coherence |
| FramebufferDriver.SkippedPages | drivers/linux-driver/src/fbhandlers.c:276-280 | When no listed page passes the test and nothing is dirty or due, nothing is sent, and a pixel written through the mapping stays wrong with nobody on the way |
| FramebufferDriver.MappedWriteLost | drivers/linux-driver/src/fbhandlers.c:276-283 | With mmio_start at zero, as nothing sets it, and the page anywhere but in the lowest octets of physical memory, a run from the reset state ends so |
| EventLock.StepOrderly | drivers/usermode-sdk/deps/libusbx-1.0.17/libusb/io.c:1609-1835 | Every step of every thread keeps the locks, the flag and the count in order, nested locking and failed writes included |
| EventLock.MutualExclusion | drivers/usermode-sdk/deps/libusbx-1.0.17/libusb/io.c:1609-1678 | In every run the active flag implies a holder of the events lock, the count is the number of threads in a modify section, and only the holder handles events |
| EventLock.NoLostWakeup | drivers/usermode-sdk/deps/libusbx-1.0.17/libusb/io.c:1666-1835 | In every run of any number of threads whose failed pipe writes are all made by the holder of the events lock, a thread that waits for events is owed a broadcast by another that has not made it yet |
| EventLock.NoDeadlock | drivers/usermode-sdk/deps/libusbx-1.0.17/libusb/io.c:2108-2159 | In such a run, as long as a thread is not done some thread can take a step, without any wait timing out |
| EventLock.HolderOwes | drivers/usermode-sdk/deps/libusbx-1.0.17/libusb/io.c:1666-1678 | Whoever holds the events lock still has a broadcast to make |
| EventLock.BroadcastWakes | drivers/usermode-sdk/deps/libusbx-1.0.17/libusb/io.c:1565-1567 | After a broadcast nobody sleeps or is about to |
| EventLock.Announced | drivers/usermode-sdk/deps/libusbx-1.0.17/libusb/io.c:1666-1678 | Whoever owes a broadcast makes it by plain steps of its own when the locks are free or its own, and then nobody waits |
| EventLock.EverybodyCanWake | drivers/usermode-sdk/deps/libusbx-1.0.17/libusb/io.c:1666-1835 | After every run whose failed writes are all made by the lock's holder, plain steps alone lead to a state in which nobody waits: no wait has to time out |
| EventLock.CompletionWakes | drivers/usermode-sdk/deps/libusbx-1.0.17/libusb/io.c:1518-1570 | A completed transfer: in every run in which the handler comes back to its handling there is a moment at which nobody waits |
| EventLock.CompletionReturns | drivers/usermode-sdk/deps/libusbx-1.0.17/libusb/io.c:1565-1567 | And it comes back: it takes the waiters lock, broadcasts and lets it go, which with that lock free changes nothing but that everybody is awake |
| EventLock.AsksIff | drivers/usermode-sdk/deps/libusbx-1.0.17/libusb/io.c:2108-2159 | A thread that asks for events undisturbed handles them if and only if the lock is free and nobody modifies the poll set; otherwise it sleeps if and only if somebody does or the flag is on, and tries again if not |
| EventLock.WaitEnds | drivers/usermode-sdk/deps/libusbx-1.0.17/libusb/io.c:2147-2159 | A wait that is over, by a wake-up or by its time, ends the call in two steps |
| EventLock.FlagSeen | drivers/usermode-sdk/deps/libusbx-1.0.17/libusb/io.c:2132-2150 | A thread that finds its completion flag set when it looks again under the waiters lock does not wait |
| EventLock.NestedClose | drivers/usermode-sdk/deps/libusbx-1.0.17/libusb/core.c:1255-1310 | A close in a callback brings the handler back with the lock as before, everybody awake and the flag off |
| EventLock.HandlingEnds | drivers/usermode-sdk/deps/libusbx-1.0.17/libusb/io.c:1666-1678 | A handler that is through leaves the lock free, the flag off and nobody waiting |
| EventLock.CallReturns | drivers/usermode-sdk/deps/libusbx-1.0.17/libusb/core.c:1020-1056 | A notification, a close and a handling by hand that run undisturbed end with locks, flag and count as before and nobody waiting |
| EventLock.StrandsIff | drivers/usermode-sdk/deps/libusbx-1.0.17/libusb/core.c:1033-1040 | Any number of threads, any reachable state in which one is about to write to the pipe and the others have nothing to do: its failure can leave a thread waiting with no broadcast to come, without a further failure, if and only if it does not hold the events lock |
| EventLock.FailedWriteStrands | drivers/usermode-sdk/deps/libusbx-1.0.17/libusb/core.c:1033-1040 | Without the lock: any other thread that then asks for events ends up asleep, nobody owes it a broadcast and no thread can take a step |
| EventLock.FailedCallStrands | drivers/usermode-sdk/deps/libusbx-1.0.17/libusb/core.c:1276-1284 | Such states are reached from the idle one, by a notification as by a close, whose only broadcast comes before its decrement, for every number of threads from two on |
| EventLock.HandlerFlag | drivers/usermode-sdk/deps/libusbx-1.0.17/libusb/io.c:1655-1669 | In every run a thread that handles events holds the lock, and the active flag is on exactly until one of its callbacks closes, or notifies with a write that works |
| FlyingList.OnlyOnePlace | drivers/usermode-sdk/deps/libusbx-1.0.17/libusb/io.c:1254-1266 | A transfer has exactly one place in the list: behind all that are due no later |
| FlyingList.InsertSorted | drivers/usermode-sdk/deps/libusbx-1.0.17/libusb/io.c:1233-1291 | Put there, the list stays sorted with infinite timeouts last, and holds the old transfers and the new one |
| FlyingList.Context.AddToFlyingList | drivers/usermode-sdk/deps/libusbx-1.0.17/libusb/io.c:1233-1291 | On the heap list: the transfer is at its place among the old ones, links intact both ways; the timer is set exactly when it comes first with a finite timeout |
| FlyingList.Context.Unlink | drivers/usermode-sdk/deps/libusbx-1.0.17/libusb/io.c:1537 | list_del removes exactly that transfer |
| FlyingList.Context.ArmForNextTimeout | drivers/usermode-sdk/deps/libusbx-1.0.17/libusb/io.c:1386-1413 | The early-exit scan sets the timer to the least unflagged finite timeout of the whole list, or disarms it when there is none |
| FlyingList.Context.HandleTimeoutsLocked | drivers/usermode-sdk/deps/libusbx-1.0.17/libusb/io.c:1850-1890 | The early-exit scan flags exactly the expired transfers of the whole list that were neither flagged nor left to the OS |
| FlyingList.Context.GetNextTimeout | drivers/usermode-sdk/deps/libusbx-1.0.17/libusb/io.c:2328-2386 | Without a timerfd: the time left until the least timeout still to be handled, none exactly when there is none |
| FlyingList.Context.SubmitTransfer | drivers/usermode-sdk/deps/libusbx-1.0.17/libusb/io.c:1434-1470 | It succeeds exactly when the backend accepts and the timer, if it has to be set, can be; then the transfer is at its place, unflagged, and left to the OS exactly when the backend says so; a submission that fails leaves the list as it was and the timer set for it |
| FlyingList.Context.SubmitAndHandle | drivers/usermode-sdk/deps/libusbx-1.0.17/libusb/io.c:1434-1890 | A transfer submitted with a timeout and looked at later is flagged if and only if it was accepted, is not left to the OS, and the end computed from clock and timeout is not after that moment |
| FlyingList.Context.HandleCompletion | drivers/usermode-sdk/deps/libusbx-1.0.17/libusb/io.c:1518-1532 | A completion takes exactly that transfer off the list and sets the timer for the others |
| FlyingList.CalculateTimeout | drivers/usermode-sdk/deps/libusbx-1.0.17/libusb/io.c:1199-1226 | With a timeout: the end in whole microseconds; without one the value of an earlier submission stays |
| FlyingList.TimerTracksIff | drivers/usermode-sdk/deps/libusbx-1.0.17/libusb/io.c:1271-1285 | After adding, the timer is right if and only if the new timeout is infinite, comes first, or comes behind one still waited for |
| DescriptorFormat.UnpackPack | drivers/usermode-sdk/deps/libusbx-1.0.17/libusb/descriptor.c:43-91 | Fields packed after any format are unpacked again, whatever follows |
| DescriptorFormat.UnpackPrefix | drivers/usermode-sdk/deps/libusbx-1.0.17/libusb/descriptor.c:43-91 | Only the octets the format accounts for matter |
| DescriptorFormat.ParseDescriptor | drivers/usermode-sdk/deps/libusbx-1.0.17/libusb/descriptor.c:43-91 | The loop over the format string unpacks the fields and reports the octets taken |
| DescriptorFormat.AudioEndpointFormat | drivers/usermode-sdk/deps/libusbx-1.0.17/libusb/descriptor.c:126-127 | The longer endpoint format yields the fields of the endpoint |
| DescriptorFormat.EndpointFormat | drivers/usermode-sdk/deps/libusbx-1.0.17/libusb/descriptor.c:128-129 | The shorter one yields them without the last two, which stay zero |
| Descriptors.Skip | drivers/usermode-sdk/deps/libusbx-1.0.17/libusb/descriptor.c:142-165 | A row of class-specific descriptors is never followed beyond the octets given |
| Descriptors.ParseEndpoint | drivers/usermode-sdk/deps/libusbx-1.0.17/libusb/descriptor.c:99-187 | No more octets are used than given, and none exactly when there is no endpoint |
| Descriptors.ParseInterface | drivers/usermode-sdk/deps/libusbx-1.0.17/libusb/descriptor.c:214-361 | The same for an interface |
| Descriptors.ParseConfig | drivers/usermode-sdk/deps/libusbx-1.0.17/libusb/descriptor.c:376-495 | The same for a configuration |
| Descriptors.AltCounts | drivers/usermode-sdk/deps/libusbx-1.0.17/libusb/descriptor.c:281-347 | On any octets the endpoint count of an alternate setting is the number of endpoints it holds if and only if not both a descriptor behind its header is cut short and the header promises endpoints |
| Descriptors.InterfaceGrouped | drivers/usermode-sdk/deps/libusbx-1.0.17/libusb/descriptor.c:349-355 | The alternate settings of an interface share one number, and only the last can be miscounted |
| Descriptors.ConfigCounts | drivers/usermode-sdk/deps/libusbx-1.0.17/libusb/descriptor.c:425-490 | A configuration counts its interfaces right, each a group of alternate settings |
| DescriptorRoundTrip.SkipBlocks | drivers/usermode-sdk/deps/libusbx-1.0.17/libusb/descriptor.c:142-165 | A row of class-specific blocks before a proper descriptor is skipped to its last octet |
| DescriptorRoundTrip.EndpointBack | drivers/usermode-sdk/deps/libusbx-1.0.17/libusb/descriptor.c:99-187 | An endpoint of 7 or 9 octets with its blocks, written out, is parsed back |
| DescriptorRoundTrip.InterfaceBack | drivers/usermode-sdk/deps/libusbx-1.0.17/libusb/descriptor.c:214-361 | So are the alternate settings of an interface |
| DescriptorRoundTrip.ConfigRoundTrip | drivers/usermode-sdk/deps/libusbx-1.0.17/libusb/descriptor.c:376-495 | Any well-formed configuration tree, written out and parsed, is the same tree with no octet left |
| DescriptorParser.SkipRow | drivers/usermode-sdk/deps/libusbx-1.0.17/libusb/descriptor.c:139-165 | The pointer loop over class-specific descriptors depends on the given octets only |
| DescriptorParser.ParseEndpointAt | drivers/usermode-sdk/deps/libusbx-1.0.17/libusb/descriptor.c:99-187 | parse_endpoint on pointer and size equals its specification on the octets in view |
| DescriptorParser.ParseInterfaceAt | drivers/usermode-sdk/deps/libusbx-1.0.17/libusb/descriptor.c:214-361 | parse_interface likewise |
| DescriptorParser.ParseConfigAt | drivers/usermode-sdk/deps/libusbx-1.0.17/libusb/descriptor.c:376-495 | parse_configuration likewise |
| DescriptorReprint.InterfaceSettles | drivers/usermode-sdk/deps/libusbx-1.0.17/libusb/descriptor.c:281-355 | Behind a parsed interface stands nothing that could be skipped as class-specific |
| DescriptorReprint.EndpointForth | drivers/usermode-sdk/deps/libusbx-1.0.17/libusb/descriptor.c:126-186 | A parsed endpoint of 7 or 9 octets, written out, is never longer than the octets used, and if as long it is those |
| DescriptorReprint.BodyForth | drivers/usermode-sdk/deps/libusbx-1.0.17/libusb/descriptor.c:425-490 | The same for the interfaces of a configuration that holds all it promises, the row before the first being the one that is kept |
| DescriptorReprint.ConfigForth | drivers/usermode-sdk/deps/libusbx-1.0.17/libusb/descriptor.c:376-495 | The same for the whole configuration, when it was parsed in full from octets that hold all their headers promise and its parts are well formed |
| Getopt.Scanner.Exchange | drivers/usermode-sdk/deps/libusbx-1.0.17/examples/getopt/getopt.c:303-381 | The two adjacent blocks change places in the array, the rest is unchanged, and first_nonopt and last_nonopt bracket the non-options where they are then |
| Getopt.SwapBlocks | drivers/usermode-sdk/deps/libusbx-1.0.17/examples/getopt/getopt.c:347-371 | Either swapping loop exchanges two blocks of equal length |
| Getopt.BlocksKept | drivers/usermode-sdk/deps/libusbx-1.0.17/examples/getopt/getopt.c:290-297 | The order within each block is kept and nothing is lost |
| Getopt.ExchangeBack | drivers/usermode-sdk/deps/libusbx-1.0.17/examples/getopt/getopt.c:303-381 | Exchanging the relocated blocks undoes it |
| GetoptPermute.StandingExchanged | drivers/usermode-sdk/deps/libusbx-1.0.17/examples/getopt/getopt.c:561-565 | After an exchange all options so far are in front in their order, and the others behind them in theirs |
| GetoptPermute.Took | drivers/usermode-sdk/deps/libusbx-1.0.17/examples/getopt/getopt.c:572-581 | Passing over or consuming one more element keeps both groups in order |
| GetoptPermute.PickAll | drivers/usermode-sdk/deps/libusbx-1.0.17/examples/getopt/getopt.c:559-605 | The two groups together are the original elements, none lost or made up |
| GetoptPermute.Permuter.Advance | drivers/usermode-sdk/deps/libusbx-1.0.17/examples/getopt/getopt.c:548-616 | The scan stops in front of the next option with everything so far in its group, or is over |
| GetoptPermute.Permuter.EndOfOptions | drivers/usermode-sdk/deps/libusbx-1.0.17/examples/getopt/getopt.c:577-593 | A `--` joins the options, and all behind it stays where it is |
| GetoptPermute.ScanAll | drivers/usermode-sdk/deps/libusbx-1.0.17/examples/getopt/getopt.c:510-974 | When there are no more options, the vector holds the program name, the elements that count as options, option arguments or the ending double dash in order, and from optind on the others in order; which is which is a function of the vector and of the options that take an argument |
| GetoptPermute.ArgumentIff | drivers/usermode-sdk/deps/libusbx-1.0.17/examples/getopt/getopt.c:926-972 | An element is taken as an argument if and only if it stands behind an option that takes one |
| GetoptPermute.RestIff | drivers/usermode-sdk/deps/libusbx-1.0.17/examples/getopt/getopt.c:577-593 | An element is passed over whatever it looks like if and only if it stands behind a `--` that is no argument |
| GetoptPermute.MovesIff | drivers/usermode-sdk/deps/libusbx-1.0.17/examples/getopt/getopt.c:545-616 | Every other element that is no argument goes to the front if and only if it is longer than one character and begins with a dash |
| FrameChunks.ChunksJoin | drivers/UsbDisplayIdd/Pipeline.cpp:317-357 | The first k chunks of a frame, joined, are the part of the payload they cover; all of them are the payload |
| FrameChunks.ChunkAccepted | drivers/UsbTransportUmdf/Queue.cpp:265-272 | Every chunk built passes the receiver's parameter checks and fits the chunk size; exactly the last is counted |
| FrameChunks.ChunkLabels | drivers/UsbDisplayIdd/Pipeline.cpp:344-352 | The chunks of a frame carry their index in order, and its id, size, number of chunks and octets |
| FrameChunks.RebuiltIff | drivers/UsbDisplayIdd/Pipeline.cpp:344-357 | A receiver that goes by headers and data alone, given chunks of a frame in any order and any number of times, has the very frame if and only if every chunk has come, and otherwise knows that it has not |
| FrameChunks.ChunkLimitIff | drivers/UsbTransportUmdf/UsbProtocol.h:22-25 | A payload takes at most 47 chunks if and only if it has at most 768544 octets, which takes in the largest frame |
| FrameChunks.Transport.PushFrameChunk | drivers/UsbTransportUmdf/Queue.cpp:246-310 | A chunk is accepted exactly when it is valid and written; the statistics count the last chunks accepted |
| FrameChunks.Pipeline.SendIoctlWithRetry | drivers/UsbDisplayIdd/Pipeline.cpp:53-128 | It succeeds with the first of at most four tries that reaches the transport, is written and is heard of, and fails exactly when none of four does, with waits of 100, 200 and 400 ms between; nothing but the chunk is accepted meanwhile, by a transport whose results are heard once or not at all |
| FrameChunks.Pipeline.PresentFrame | drivers/UsbDisplayIdd/Pipeline.cpp:314-390 | The frame has the next id and is complete exactly when all its chunks were sent; it is incomplete only after four tries in a row that fail; from what was accepted a receiver rebuilds the frame when it is complete, chunks sent twice included; frames and bytes counted by the receiver are those of the completed frames, and of last chunks accepted without the sender hearing of it |
| FrameChunks.Pipeline.HandlePresent | drivers/UsbDisplayIdd/Pipeline.cpp:232-390 | The same from the mapped surface on; the frame is dropped exactly when the transport is not open and cannot be opened |
| FrameChunks.ConvertFrame | drivers/UsbDisplayIdd/Pipeline.cpp:303-310 | Every pixel of the surface ends up, converted, at its place in the frame |
| FrameChunks.Rgb565Fields | drivers/UsbDisplayIdd/Pipeline.cpp:197-207 | Conversion keeps the top five, six and five bits of the colours, each in its own field |

## Left out

- EventLock.StrandsIff: about a failed write while the other threads have nothing to do; with others at work, one of them may still make the broadcast that the failing thread does not.
- EventLock.NoDeadlock: says that a step can be taken, not that a scheduler takes it; how long `poll` blocks is not modelled.
- Event handling from inside a transfer callback: callbacks may notify and close here, but not handle events.
- DisplayTickets.Device.Sell: one bundle at a time, as the driver's senders run under one lock; the release of the pool when the driver goes away is not modelled.
- BitbltEncoder.EncodingContext.Interrupt: completions are let in wherever the sender touches the pool, a list or the host controller, not between the octets of a copy, which they cannot affect.
- BitbltEncoder.EncodingContext.CommandHeader: packets longer than the ten-octet header; the driver also takes the 8-octet packets of a full-speed bulk endpoint, for which the room left in the packet is computed below zero and wraps around.
- ImageSender.TrySendImage: packets longer than ten octets, for that reason. It reads a framebuffer that does not change meanwhile; writers during a send are the subject of `Framebuffer`. Coordinates are cut to 16 bits as in the header; the size product is not cut to 32 bits.
- Framebuffer.RunCoherent: fill hints in exclusive-or mode and the copy-area hint are left out, as what they do to a screen that is not in step is up to the firmware.
- The unsync counter, statistics and identifiers are unbounded integers; only octets, words and pixels have their widths.
- FlyingList.Context.HandleTimeoutsLocked: a cancel request neither unlinks the transfer nor changes its timeout, and the clock can be read.
- DescriptorParser: allocation always succeeds, and words are little-endian on both sides, so the host-endian switch makes no difference.
- Descriptors.ParseConfig: nothing is said of the memory freed after an error.
- `calculate_timeout` and `libusb_get_next_timeout` with a failing clock, reference counts of libusbx devices, hotplug, the operating-system backends.
- FramebufferDriver.FbPrivate.DefioHandler: a page counts as written in whole rows; the list of pages is emptied by the kernel whatever the handler does with it.
- GetoptPermute.ScanAll: the permuting order only, `optind` not moved by the caller; which options there are and how they are decoded is reduced to whether they take the next element.
- FrameChunks: the frame size is not cut to 32 bits; allocation of the buffers always succeeds; touch data and the other requests of the transport are left out.
- The device's status packets enter as the event that sets the unsync flag; touch input, screen enabling and the SDK's status thread are left out.
- Copy-area, fill and rectangle commands of driver and SDK beyond their place in the framebuffer protocol: each is one packet of constants and coordinates.
- The indirect display driver's surface handling, driver load and power callbacks, EDID, tracing and the demo programs.
