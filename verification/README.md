# A verified model of the kernel's algorithmic cores

The kernel is a small 64-bit x86 operating system. This project models the parts of it whose
correctness does not depend on the hardware around them, in Dafny, and proves what each of them is for:

* **Address spaces and frames** (`memory_manager`, `page_tables`, `paging`, `spaces`, `words`,
  `app_regions`, `app_spaces`, `private_copies`, `mapped_files`, `app_lifetime`, `app_loading`,
  `app_first_load`): the first-fit frame allocator, the recursive builder, cleaner and copier of four-level page tables, copy-on-write, demand
  paging, file mapping, and the life of an app from load to exit. Two results stand above the others.
  Whatever instances of an app do, in whatever order, each of them reads exactly what it would read with
  a private copy of the program, and the shared program never changes. And a run of an app leaves
  exactly the frames allocated that were allocated before it.
* **The window system** (`stacks`, `graphics`, `frame_buffer`, `window`, `compositing`, `layer`,
  `active_layer`): the partial redraws of a back buffer and a screen show what painting all layers from
  the bottom up would show.
* **The scheduler** (`run_queues`, `task_states`, `task`, `streams`, `pipe`): multi-level run queues, sleep and wakeup,
  mailboxes, the hand-over of exit codes, the wait for one's turn, and the pipe that is built on them.
* **The DEFLATE Huffman decoder** (`bits`, `canonical_code`, `zlib`) of the image viewer: the fast table
  and the search for longer codes decode the canonical code of section 3.2.2 of RFC 1951.
* **The xHCI driver** (`ring`, `event_ring`, `xhci`): the cycle-bit rings of section 4.9 of the xHCI
  specification, word by word, and the enumeration of ports of section 4.3.
* **The FAT32 volume** (`fat_chains`, `fat_writing`, `fat_file`, `fat_names`, `fat_directory`): cluster chains, reading
  and writing, 8.3 names and directories, after Microsoft's FAT32 File System Specification.

Code that changes state step by step is modelled by classes with those fields and by methods with the
same loops; what a method does is stated with functions on values, and the laws about these are lemmas.
Interrupts are off inside the methods that the source runs that way, so such a method is one step.
Verify the whole project with `dafny verify dfyconfig.toml`.

Nine places where the code does less than one would expect are stated as exact conditions:

* A page that is already present and shared must not be mapped again as writable: its frame would count
  as owned though it was never allocated (`PageTables.RemappingTakesFrames`).
* A mapped file is not seen where the demand-paged range has reached the mapping, because that range is
  looked at first and neither system call compares the two (`MappedFiles.FileBackedExactly`,
  `MappedFiles.MappedFileRead`, `MappedFiles.HiddenMapping`).
* A segment of a program that does not begin with a page can miss its last page (`AppLoading.SegmentFits`).
* A pixel of a window with a transparent colour that becomes transparent keeps its old colour when the
  window is redrawn (`Compositing.ContentRedrawn`, `Compositing.ErasedPixelStays`).
* A ring of n TRBs and a link takes n TRBs only if the controller has followed the previous link; with
  n - 1 it always works (`Rings.RoomIsExact`, `Rings.RoomByOutstanding`, `Rings.LateLinkStalls`).
* A waiting port is forgotten when it is disconnected at the moment its turn comes
  (`Enumeration.ForgottenExactly`).
* A file write that crosses the end of a cluster reports more bytes than it was given, except when it is
  longer than a cluster and ends with one (`FatWriting.WriteReports`).
* Even then it leaves clusters out when more than one that it needs is missing from the chain
  (`FatWriting.RightExactly`, `FatWriting.GapExample`).
* A file created in the place of a deleted one keeps that one's first cluster, so that it begins without
  clusters, as writing needs, exactly if that field is zero (`FatDirectories.Directories.CreateFile`,
  `FatFiles.NewFileExactly`).

## Model

| member | source | states |
|---|---|---|
| MemoryManagement.BitmapMemoryManager.Allocate | kernel/memory_manager.cpp:9-30 | fails exactly when no run of that many free frames lies in the managed range; otherwise takes the lowest such run and nothing else |
| MemoryManagement.BitmapMemoryManager.Free | kernel/memory_manager.cpp:32-37 | exactly the frames of the span become free |
| MemoryManagement.BitmapMemoryManager.MarkAllocated | kernel/memory_manager.cpp:39-43 | exactly the frames of the span become allocated |
| MemoryManagement.BitmapMemoryManager.SetBit | kernel/memory_manager.cpp:68-78 | one frame changes, whatever bitmap word it is in |
| MemoryManagement.InitializeMemoryManager | kernel/memory_manager.cpp:100-130 | for a sorted memory map without overlap, a frame below the last available end is left free exactly when an available descriptor covers it, and none above is usable |
| MemoryManagement.UsableIs | kernel/memory_manager.cpp:108-129 | which means that the frame lies in the memory of a descriptor of a type that the firmware no longer needs |
| PageTables.LinearAddress.SetPart | kernel/paging.hpp:40-48 | setting one index of an address leaves the other three |
| PageTables.TreeFrame | kernel/paging.cpp:46-240 | a page-table tree, its frames and its translations depend on its own table frames only |
| PageTables.ReplaceEntry | kernel/paging.cpp:48-64 | replacing one entry of a table keeps the tree well formed and changes the frame sets by that entry only |
| PageTables.DistinctPages | kernel/paging.cpp:107-132 | two pages are never backed by one frame that the tree owns |
| PageTables.RemappingTakesFrames | kernel/paging.cpp:66-105 | after a range was mapped as writable, the frames that count as owned since then were all free before if and only if every page of the range that was present was writable already |
| PageTables.SubtreeMapped | kernel/paging.cpp:84-92 | pages mapped below an entry are mapped in the whole table, in the same range |
| PageTables.SubtreeCopied | kernel/paging.cpp:225-238 | copying a subtree makes its pages appear at the same places, read-only |
| PageTables.TranslateIsLookup | kernel/paging.hpp:52-80 | the walk of section 4.5 of the Intel SDM, volume 3A, reaches the page that the table says, with the permissions of the leaf |
| Paging.PhysicalMemory.NewPageMap | kernel/paging.cpp:186-195 | a cleared frame that was free; fails, without any change, only when no frame of the managed range is free |
| Paging.PhysicalMemory.FreePageMap | kernel/paging.cpp:197-200 | one frame becomes free |
| Paging.PhysicalMemory.SetNewPageMapIfNotPresent | kernel/paging.cpp:48-64 | a present entry is left alone, an absent one gets a new frame |
| Paging.PhysicalMemory.SetupPageMap | kernel/paging.cpp:66-105 | maps exactly the first min(n, pages left in the table) pages from the address on; present pages keep their frames and get the permission asked for, all other translations stay; returns the number of pages not mapped; terminates; fails only when no frame is free |
| Paging.PhysicalMemory.CleanPageMap | kernel/paging.cpp:107-132 | frees exactly the frames owned from the index on, which are those of writable entries, clears the entries, and changes no other frame |
| Paging.PhysicalMemory.SetPageContent | kernel/paging.cpp:158-170 | one page gets another frame and becomes writable; all other translations stay |
| Paging.PhysicalMemory.CopyPageMaps | kernel/paging.cpp:212-240 | the destination maps the same frames read-only from the index on, through new tables, and the source is unchanged |
| Paging.PhysicalMemory.CopyOnePage | kernel/paging.cpp:172-181 | the page gets a new frame with the same content |
| Words.ValueRoundTrip | kernel/paging.hpp:52-80 | the fields of an entry lose nothing of its 64 bits |
| Words.ValueFields | kernel/paging.hpp:52-80 | the flags are in the three lowest bits, the frame number from bit 12 on |
| Words.ByteUp | kernel/paging.cpp:152-154 | the bytes of a word lie in memory with the lowest first |
| Words.FilePageByte | kernel/paging.cpp:152-154 | a page filled from a file holds the file's bytes in order, and zeros after its end |
| Words.LoadedPage | kernel/paging.cpp:152-154 | the same in terms of the bytes that loading from the offset yields |
| Spaces.PageFrame | kernel/paging.cpp:172-181 | the frame of a page is owned if the page is writable and belongs to the program otherwise |
| Spaces.ReachedFrames | kernel/paging.cpp:186-240 | every frame a space can reach is its own or one that stays allocated |
| Spaces.StoreStep | kernel/paging.cpp:172-181 | a store through a writable page changes that page of that space only |
| Spaces.MapStep | kernel/paging.cpp:202-205 | mapping absent pages of a space adds zeroed pages to its view |
| Spaces.CopyStep | kernel/paging.cpp:172-181 | copying a page changes no view, and makes the page the space's own |
| Spaces.StepKeepsSeparate | kernel/paging.cpp:172-240 | a step of one space keeps all spaces disjoint, accounts for every frame, and changes no other view |
| Spaces.SpaceAdded | kernel/terminal.cpp:186-200 | a new space owns frames that were free |
| Spaces.SpaceRemoved | kernel/terminal.cpp:624-628 | cleaning a space gives back exactly its frames and leaves the others |
| AppRegions.FindFileMapping | kernel/paging.cpp:134-142 | the first mapping that contains the address |
| AppRegions.MappedIsOk | kernel/syscall.cpp:418-422 | a new mapping is page-aligned, below and disjoint from the others, and as long as its file in whole pages |
| AppRegions.BackingIsPageWide | kernel/paging.cpp:252-259 | all bytes of a page are backed alike, and a file is loaded only at offsets below its size |
| MappedFiles.FileBackedExactly | kernel/paging.cpp:252-259 | a page that is touched first is filled from a file if and only if it is in a mapping and not in the demand-paged range, which is looked at before |
| MappedFiles.MappedFileByte | kernel/paging.cpp:144-156 | byte i of a mapping is then byte i of the file, or zero after its end, if and only if it is not in the demand-paged range or is zero anyway |
| MappedFiles.StepShowsFiles | kernel/syscall.cpp:399-423 | whatever the program does, mapped pages that it did not write hold what the files hold, as long as the demand-paged range does not reach the mappings |
| MappedFiles.MappedFileRead | kernel/paging.cpp:134-156 | over any run of a launched program, until the two ranges meet, every read of a mapped page that was not written yields the file |
| MappedFiles.MappedPageByte | kernel/paging.cpp:144-156 | which is, byte by byte, the file from the begin of the mapping on, and zeros after its end |
| MappedFiles.HiddenMapping | kernel/paging.cpp:252-254 | an input for which it does not: all pages up to the stack are demanded, and then a file of one byte is mapped |
| AppLifetime.Kernel.SetupPageMaps | kernel/paging.cpp:202-205 | absent pages of the current space become present, writable and zero |
| AppLifetime.Kernel.HandlePageFault | kernel/paging.cpp:242-260 | which faults are errors, and that all others leave the instance's memory as if the page had been there |
| AppLifetime.Kernel.PreparePageCache | kernel/paging.cpp:144-156 | the faulting page gets the file's bytes |
| AppLifetime.Kernel.CopyPage | kernel/paging.cpp:172-181 | a write fault makes the page writable, and no instance sees a difference; fails only when no frame is free |
| AppLifetime.Kernel.Access | kernel/paging.cpp:242-260 | an access of a program reaches its page after at most one fault; it is refused only where the program has no page, or when no frame is free |
| AppLifetime.Kernel.UserRead | kernel/paging.cpp:242-260 | a read yields the word of the instance's own memory |
| AppLifetime.Kernel.UserWrite | kernel/paging.cpp:172-181 | afterwards that word of that instance has the value written, and no other word has changed |
| PrivateCopies.UserNextIs | kernel/paging.cpp:242-260 | a read of the reference machine finds what the last write left, and a write changes one word |
| PrivateCopies.FirstRead | kernel/paging.cpp:242-260 | a demanded page reads as zeros at first; one that was neither demanded nor mapped cannot be read |
| PrivateCopies.NextIs | kernel/terminal.cpp:571-629 | its launches add an instance, its exits take one away, and all else concerns one instance alone |
| AppLifetime.Kernel.DemandPages | kernel/syscall.cpp:399-401 | extends the demand-paged range and returns its old end |
| AppLifetime.Kernel.MapFile | kernel/syscall.cpp:406-424 | takes the next lower pages, just enough for the file |
| AppLifetime.Kernel.SetupPML4 | kernel/terminal.cpp:136-151 | a new top table with the kernel's lower half |
| AppLifetime.Kernel.LoadApp | kernel/terminal.cpp:186-200 | the copy of a loaded program shows its pages and changes nothing else |
| AppRegions.StartImageIs | kernel/terminal.cpp:583-603 | a program sees at its start exactly its own pages, the page of the arguments and the sixteen pages of the stack below it, the last ones zeroed |
| AppRegions.StartTaskIs | kernel/terminal.cpp:608-616 | nothing is demanded or mapped yet; demanded pages begin at the least page boundary behind the program, mappings end at the stack |
| AppLifetime.Kernel.BuildStacks | kernel/terminal.cpp:583-603 | exactly the argument page and the stack are added to the view |
| AppLifetime.Kernel.Launch | kernel/terminal.cpp:578-615 | the new instance sees exactly the program's pages, the page of the arguments and the stack, and starts with the regions as said; the others see no difference; fails only when no frame is free |
| AppLifetime.Kernel.Exit | kernel/terminal.cpp:624-628 | exactly the frames of the instance are given back |
| AppLifetime.Kernel.RunProgram | kernel/paging.cpp:158-249 | what a program learns, step by step, is what it would learn with a copy of its own, except when no frame is free |
| AppLifetime.Kernel.ExecuteFile | kernel/terminal.cpp:571-629 | for every successful run, with any faults and system calls in between, the frames allocated afterwards are those allocated before; the program learns what it would alone; the other instances are unchanged; fails only when no frame is free |
| AppLifetime.Kernel.Step | kernel/paging.cpp:242-260 | one step of one instance is a step of the machine in which every instance has its own copy; memory runs out only when no frame is free, and only an exit gives frames back |
| AppLifetime.Kernel.Run | kernel/paging.cpp:158-249 | any interleaving of launches, exits, reads, writes and faults of any number of instances has the outcomes of private copies, and the program's frames never change; a step is refused for memory only when every frame of the managed range is allocated |
| AppLifetime.Kernel.NoInstancesLeft | kernel/terminal.cpp:624-628 | without instances no frame of one is allocated |
| AppLoading.LoadElf | kernel/terminal.cpp:92-134 | the first load maps exactly the pages reserved for the segments, all read-only, and so yields a program that can be shared |
| AppLoading.SegmentFits | kernel/terminal.cpp:106 | these hold all bytes of a segment if and only if its offset in the page and its size together need no page more than the size alone |
| AppFirstLoad.LoadAndExecute | kernel/terminal.cpp:201-226 | a program that is loaded first and then run keeps only the frames of the loaded program allocated, and learns what it would with a copy of its own |
| Graphics.IntersectContains | kernel/graphics.hpp:79-90 | the intersection contains exactly the common points |
| FrameBuffers.FrameBuffer.Copy | kernel/frame_buffer.cpp:61-89 | every pixel whose source lies in the area and on the source buffer is copied, every other one stays; refused exactly for different formats |
| FrameBuffers.FrameBuffer.Move | kernel/frame_buffer.cpp:91-112 | a part of the picture appears at its new place as it was, although the two overlap; every other pixel stays |
| Windows.Window.Write | kernel/window.cpp:98-101 | one pixel of the window and of its shadow buffer changes, and no other |
| Windows.Window.Move | kernel/window.cpp:114-116 | a part of the shadow buffer is scrolled; the pixels of the window stay |
| Windows.Window.DrawTo | kernel/window.cpp:61-84 | an opaque window paints its part of the area, one with a transparent colour all its other pixels, whatever the area; an opaque one paints nothing on a buffer of another format |
| Compositing.SuffixRedrawn | kernel/layer.cpp:83-114 | redrawing the layers from some height on yields the right colour exactly where it was right before, or where one of them is drawn |
| Compositing.ChangedElsewhere | kernel/layer.cpp:96-114 | where a layer puts the same colour as before the picture is the same |
| Compositing.ScrolledElsewhere | kernel/window.cpp:114-116 | scrolling a part of an opaque window changes what it shows at the new place of the part only |
| Compositing.RemovedElsewhere | kernel/layer.cpp:162-168 | where a removed layer had no colour the picture is the same |
| Compositing.TransparentMoved | kernel/layer.cpp:116-124 | redrawing any area after a transparent layer moved is right outside its old place |
| Compositing.MovedRedrawn | kernel/layer.cpp:116-133 | the two redraws of a move suffice on both buffers |
| Compositing.ContentRedrawn | kernel/layer.cpp:96-114 | redrawing the changed part of a layer suffices exactly where no pixel was erased, or had the colour beneath it already; for an opaque layer, always |
| Compositing.ErasedPixelStays | kernel/window.cpp:70-83 | an input for which it does not: a pixel that becomes transparent keeps its old colour |
| Compositing.RaisedRedrawn | kernel/layer.cpp:249-255 | after a layer was raised or shown without erasing a pixel, redrawing its own area suffices |
| Compositing.RemovedRedrawn | kernel/layer.cpp:332-334 | after a layer was removed, redrawing its place suffices |
| Layers.RedrawProper | kernel/layer.cpp:100-106 | the part of a layer that Draw repaints |
| Layers.LayerManager.DrawArea | kernel/layer.cpp:83-89 | the back buffer gets all layers painted over it for the area, the screen receives the area |
| Layers.LayerManager.DrawFrom | kernel/layer.cpp:96-114 | the same for a layer and those above it |
| Layers.LayerManager.Draw | kernel/layer.cpp:91-114 | after a change of a layer inside the area, back buffer and screen equal the painting of all layers if and only if no transparent pixel left a colour behind; for an opaque layer, always |
| Layers.LayerManager.Move | kernel/layer.cpp:116-124 | back buffer and screen still equal the painting of all layers, with the layer at its new place |
| Layers.LayerManager.MoveRelative | kernel/layer.cpp:126-133 | the same for a relative move |
| Layers.LayerManager.UpDown | kernel/layer.cpp:135-160 | the layer, hidden or not, comes to the height asked for, counted without it; a negative height hides it |
| Layers.LayerManager.Hide | kernel/layer.cpp:162-168 | exactly this layer leaves the stack; nothing for an unknown id |
| Layers.LayerManager.RemoveLayer | kernel/layer.cpp:74-81 | exactly the layer with the id leaves the stack and the layers |
| Layers.LayerManager.FindLayer | kernel/layer.cpp:170-179 | the layer with the id, null exactly if there is none |
| Layers.LayerManager.GetHeight | kernel/layer.cpp:202-209 | the height in the stack of the layer with the id, -1 if none is shown |
| Stacks.LiftedBelow | kernel/layer.cpp:253-254 | lifting a layer to the bottom and then to one below the mouse layer's height puts it directly below the mouse layer |
| ActiveLayers.ActiveLayer.Activate | kernel/layer.cpp:235-258 | both windows change their look, the new one comes to lie below the mouse layer, and the picture is right; nothing happens for the active layer itself |
| ActiveLayers.CloseLayer | kernel/layer.cpp:322-339 | the layer goes and the picture is right; NoSuchEntry exactly if there is no such layer |
| RunQueues.RotatedIsConsistent | kernel/task.cpp:284-306 | a timer rotation keeps every running task in the queue of its level, once, and no task above the current level |
| RunQueues.FrontGone | kernel/task.cpp:284-306 | so does a rotation in which the current task leaves, if another task remains |
| RunQueues.SleptIsConsistent | kernel/task.cpp:140-156 | so does the sleep of any running task |
| RunQueues.WokenIsConsistent | kernel/task.cpp:170-188 | so does a wakeup, at any level |
| RunQueues.ReleveledIsConsistent | kernel/task.cpp:256-282 | so does a change of level, of the current task or another |
| RunQueues.RotatedIs | kernel/task.cpp:284-306 | a rotation sends the current task to the end of its queue, or out of it, keeps the order of all others, and goes to the highest level with a task when that is due |
| RunQueues.WokenIs | kernel/task.cpp:170-188 | a task that wakes up comes last in its level |
| RunQueues.SleptIs | kernel/task.cpp:140-156 | a task that sleeps leaves the current task and the other queues as they were |
| RunQueues.ReleveledIs | kernel/task.cpp:256-282 | a task that changes its level comes last there, and the current task stays current |
| RunQueues.PositionFalls | kernel/task.cpp:284-306 | while its level stays current no event of another task sets a waiting task back, and each rotation advances it by one |
| RunQueues.BoundedWait | kernel/task.cpp:131-188 | it runs after at most as many rotations as there were tasks before it |
| Tasks.TaskManager.constructor | kernel/task.cpp:113-124 | the current task at the highest level and the idle task at the lowest |
| Tasks.TaskManager.RotateCurrentRunQueue | kernel/task.cpp:284-306 | rotates the queues as specified, and finds the highest level with a task when a level change is pending |
| Tasks.TaskManager.NewTask | kernel/task.cpp:126-129 | a new id and a task that does not run yet; everything else stays |
| Tasks.TaskManager.SwitchTask | kernel/task.cpp:131-138 | the queues rotate and stay in order; everything else stays |
| Tasks.TaskManager.SleepTask | kernel/task.cpp:140-156 | the task leaves the queues, which stay in order; nothing for a sleeping task; everything else stays |
| Tasks.TaskManager.Sleep | kernel/task.cpp:158-168 | the same by id, with NoSuchTask exactly for unknown ids |
| Tasks.TaskManager.WakeupTask | kernel/task.cpp:170-188 | the task runs at the level asked for, and the queues stay in order; everything else stays |
| Tasks.TaskManager.Wakeup | kernel/task.cpp:190-199 | the same by id, with NoSuchTask and no change exactly for unknown ids |
| Tasks.TaskManager.ChangeLevelRunning | kernel/task.cpp:256-282 | only the level of this task changes, and the queues stay in order |
| Tasks.TaskManager.SendMessage | kernel/task.cpp:201-210 | exactly the addressed task gets the message and runs; NoSuchTask and no change exactly for unknown ids |
| Tasks.TaskManager.ReceiveOrSleep | kernel/task.cpp:71-79 | the oldest message, or the task sleeps with an empty mailbox; everything else stays |
| Tasks.TaskManager.Finish | kernel/task.cpp:217-234 | the current task goes, exactly the exit code given is kept for it, and the task waiting for it runs; everything else stays |
| Tasks.TaskManager.WaitFinishStep | kernel/task.cpp:239-252 | the exit code exactly if the task has finished, and then for the first time; otherwise the caller is registered and sleeps |
| TaskStates.AwakeKeeps | kernel/task.cpp:170-188 | waking a task or changing its level keeps every running task in the queue of its level, once |
| TaskStates.AsleepKeeps | kernel/task.cpp:140-156 | so does the sleep of any task but the idle one |
| TaskStates.DeliveredIsSafe | kernel/task.cpp:65-68 | after a message was delivered no task sleeps over one |
| TaskStates.ReceivedIsSafe | kernel/task.cpp:71-79 | so after a step of a receive loop |
| TaskStates.AwaitedIsSafe | kernel/task.cpp:239-252 | a turn of WaitFinish keeps every sleeping waiter registered, and every registered waiter alive and waiting |
| TaskStates.EndedIsParked | kernel/task.cpp:217-234 | whoever waited for a task that ended runs again |
| TaskStates.EndedIsOrderly | kernel/task.cpp:217-234 | the end of a task keeps everything in order, and its exit code is a new one |
| TaskStates.MovesKeepOrder | kernel/task.cpp:131-252 | every action keeps the queues, the mailboxes and the exit codes in order |
| TaskStates.HandedOver | kernel/task.cpp:239-252 | an exit code that is handed over is the one kept for its task and was not handed over before |
| TaskStates.CodeFrom | kernel/task.cpp:217-252 | every exit code there is was given to Finish by its task, at a certain step of the run |
| TaskStates.CreateMoves | kernel/task.cpp:131-134 | a new task gets the next id, the level 1 and an empty mailbox, and does not run |
| TaskStates.TaskMoves | kernel/task.cpp:170-210 | a wakeup or a message changes one task: it runs, at the level asked for, with the message behind its others |
| TaskStates.ReceiveMoves | kernel/task.cpp:71-79 | a receive step takes the oldest message of the current task, or it sleeps |
| TaskStates.AwaitMoves | kernel/task.cpp:239-252 | a turn of WaitFinish hands the exit code over, or registers the current task, which sleeps |
| TaskStates.EndMoves | kernel/task.cpp:217-234 | an end keeps the exit code given, and wakes the task that waits |
| TaskStates.NoLostWakeup | kernel/task.cpp:239-252 | a task that sleeps for a message has none, and one that sleeps for an exit code is registered for a task that has not finished |
| Tasks.TaskManager.Run | kernel/task.cpp:131-252 | over any interleaving the trace of states follows the actions, all invariants hold in each of them, every exit code handed over is the one with which its task ended before, and none is handed over twice |
| Pipes.PipeDescriptor.WriteStep | kernel/terminal.cpp:918-925 | one message carries the next bytes of the buffer |
| Pipes.PipeDescriptor.Write | kernel/terminal.cpp:914-927 | all bytes are written, in order |
| Pipes.PipeDescriptor.FinishWrite | kernel/terminal.cpp:929-935 | the pipe is closed after everything written |
| Pipes.ReadingIsRight | kernel/terminal.cpp:871-910 | a read returns at most len bytes, all of what is left or of the next message if they fit, and keeps the others; the empty message closes the pipe |
| Pipes.PipeNextIs | kernel/terminal.cpp:871-935 | each message has sixteen bytes or the rest of the buffer, and a read looks at the oldest message only when it has nothing left |
| Pipes.PipeDescriptor.ReadStep | kernel/terminal.cpp:871-910 | the next bytes, at most len and as many as there are, from the rest of the last message or from the next one; none for a positive length only once everything written was delivered and the pipe is closed |
| Pipes.PipeDescriptor.Run | kernel/terminal.cpp:871-935 | for any interleaving the trace follows the actions, and in each of its states what was read, the rest that the reader keeps, the messages under way and the bytes not sent yet are exactly what was passed to Write; no read returns more than it asked for, and the end is seen only once all was read |
| Bits.MaskedIsSwap | apps/gview/stb_image.h:3954-3957 | a round of masked shifts exchanges the halves of all groups of bits |
| Bits.BitReverseIsReverse | apps/gview/stb_image.h:3952-3967 | the masked shifts reverse the low bits of a 16-bit number |
| CanonicalCode.FirstOfAll | apps/gview/stb_image.h:3984-3994 | the first symbol of the shortest length has the code word of zeros |
| CanonicalCode.NextOfLength | apps/gview/stb_image.h:3997-4011 | the next symbol of a length has the next code word |
| CanonicalCode.NextLength | apps/gview/stb_image.h:3984-3994 | the next length begins where the code words of the length before end |
| CanonicalCode.MatchUnique | apps/gview/stb_image.h:3984-3994 | no two code words begin the same bits |
| CanonicalCode.MatchExists | apps/gview/stb_image.h:4066-4072 | between two limits some code word of that length matches, and which one |
| CanonicalCode.BoundaryIsKraft | apps/gview/stb_image.h:3983-3994 | the last limit is the Kraft sum of the lengths |
| Zlib.ZHuffman.Build | apps/gview/stb_image.h:3969-4014 | accepts exactly the lengths whose Kraft sum is at most one, and then fills all tables rightly |
| Zlib.Zbuf.FillBits | apps/gview/stb_image.h:4042-4049 | more bits are buffered, the stream is the same |
| Zlib.Zbuf.Decode | apps/gview/stb_image.h:4079-4091 | the symbol of the one code word that begins the stream, read past exactly that word; -1 exactly if none does |
| Zlib.Zbuf.DecodeSlowpath | apps/gview/stb_image.h:4061-4077 | the same for codes that the fast table does not resolve |
| Rings.Owned | kernel/usb/xhci/ring.cpp:31-55 | the consumer owns its slot exactly if something is left for it, and then the slot is complete: the first TRB, or the link |
| Rings.RoomIsExact | kernel/usb/xhci/ring.cpp:40-55 | a push keeps the ring in order if and only if a slot is free for the TRB and, when the link is next, for the link |
| Rings.RoomByOutstanding | kernel/usb/xhci/ring.cpp:40-55 | that condition in terms of the TRBs outstanding |
| Rings.LateLinkStalls | kernel/usb/xhci/ring.cpp:45-52 | when it fails at the link, the consumer waits although every slot holds a TRB for it |
| Rings.NewRing | kernel/usb/xhci/ring.cpp:13-29 | a cleared ring is in order |
| Rings.Ring.CopyToLast | kernel/usb/xhci/ring.cpp:31-38 | the slot is handed over complete, with the consumer running between any two stores |
| Rings.Ring.Push | kernel/usb/xhci/ring.cpp:40-55 | whatever the consumer does meanwhile, what it has taken stays taken, and it has taken and will take the pushed TRBs, each once, in order and complete, over any number of laps |
| Rings.HostController.Step | kernel/usb/xhci/ring.cpp:40-55 | a consumer that follows the cycle bit and the link takes the next TRB that was pushed, or goes on to the first slot at the link |
| Rings.HostController.Run | kernel/usb/xhci/ring.cpp:40-55 | in four steps for each TRB that is left it takes all of them |
| EventRings.FrontOwned | kernel/usb/xhci/ring.hpp:88-94 | the driver sees its cycle bit at the front exactly if an event is there, complete |
| EventRings.EventRing.Pop | kernel/usb/xhci/ring.cpp:102-115 | the next event, with the cycle bit flipped at the end of the segment |
| EventRings.EventRing.ProcessEvent | kernel/usb/xhci/xhci.cpp:512-518 | events are handled each once, in the order they were posted, with the controller running in between |
| Enumeration.Controller.ResetPort | kernel/usb/xhci/xhci.cpp:91-113 | when a port is reset, made to wait or refused |
| Enumeration.Controller.EnableSlot | kernel/usb/xhci/xhci.cpp:115-132 | the phase advances and the command is given exactly if the reset is complete |
| Enumeration.Controller.AddressDevice | kernel/usb/xhci/xhci.cpp:134-167 | the phase advances exactly for slots in range |
| Enumeration.Controller.ConfigureEndpoints | kernel/usb/xhci/xhci.cpp:447-510 | the phase advances exactly for known speeds |
| Enumeration.Controller.OnPortStatusChange | kernel/usb/xhci/xhci.cpp:197-210 | a new port is reset or waits, a port whose reset is complete asks for a slot, for others it is an error; the invariants hold |
| Enumeration.Controller.OnTransfer | kernel/usb/xhci/xhci.cpp:212-228 | exactly when endpoints are configured, and which error is returned; the invariants hold |
| Enumeration.Controller.AddressAssigned | kernel/usb/xhci/xhci.cpp:242-268 | the port is initialized, and the lowest waiting port gets its turn if it is connected |
| Enumeration.ForgottenExactly | kernel/usb/xhci/xhci.cpp:242-268 | an event makes the driver forget a waiting port if and only if that port was not connected when its turn came |
| Enumeration.Controller.OnCommandCompletion | kernel/usb/xhci/xhci.cpp:230-284 | only an expected completion advances a port, which one and how far, with which command for which slot; the errors; the invariants hold |
| Enumeration.Enumerated | kernel/usb/xhci/xhci.cpp:91-284 | the six events of a device that is plugged in take its port all the way, with its three commands on the way |
| Enumeration.Controller.Run | kernel/usb/xhci/xhci.cpp:197-284 | over all sequences of events the trace of states follows the events; in each state the ports being addressed are exactly the one named, no port has gone back, every address went to the port that asked; and no waiting port is ever forgotten if and only if each port whose turn comes is connected |
| FatChains.FreeFromIs | kernel/fat.cpp:176-185 | the search meets all free clusters in increasing order |
| FatChains.Volume.ExtendCluster | kernel/fat.cpp:168-188 | appends exactly the n lowest free clusters to the chain, in order, from any of its clusters, and changes no other entry |
| FatChains.Volume.AllocateClusterChain | kernel/fat.cpp:266-280 | a chain of exactly the n lowest free clusters; of one for n = 0 |
| FatChains.Extended | kernel/fat.cpp:168-188 | the volume stays well formed: chains disjoint and acyclic, every used cluster in one of them, the other chains as they were |
| FatChains.Allocated | kernel/fat.cpp:266-280 | the same for a new chain |
| FatWriting.WriteReports | kernel/fat.cpp:338-357 | Write reports the length given if and only if it fits into the cluster, or is more than a cluster and ends with one |
| FatWriting.RightExactly | kernel/fat.cpp:338-357 | it reports the length given and leaves no cluster out if and only if the bytes fit into the cluster, or are more than a cluster, end with one, and need at most one cluster that the chain does not have |
| FatWriting.NewFileRight | kernel/fat.cpp:324-333 | for a new file, if and only if they fit into a cluster or end with one |
| FatWriting.GapExample | kernel/fat.cpp:344 | an input for which the length is right and a cluster is left out: a write of two clusters to a file of one |
| FatWriting.FitIsRight | kernel/fat.cpp:338-357 | pieces that do not cross the end of a cluster are all right, and take a cluster each at most |
| FatFiles.FileDescriptor.Read | kernel/fat.cpp:288-317 | the next bytes of the file, as many as there are up to len |
| FatFiles.FileDescriptor.Load | kernel/fat.cpp:144-157 | the bytes from the offset on |
| FatFiles.FileDescriptor.ReadDelim | kernel/file.cpp:19-32 | the next bytes up to the delimiter, the limit or the end of the file |
| FatFiles.LengthIs | kernel/file.cpp:19-32 | these end with the first delimiter, at the limit or with the file |
| FatFiles.AnswerIs | kernel/file.cpp:19-32 | one answer is as long as was asked for unless the file ends, or a line that fits the buffer and has a delimiter at its end only |
| FatFiles.AnswersTogether | kernel/fat.cpp:288-317 | what several reads return is, together, the bytes between where the first begins and the last ends |
| FatFiles.FileDescriptor.Write | kernel/fat.cpp:319-362 | for any buffer: the number it reports, the size and the clusters it takes, the lowest free ones, are those of its loop, and no cluster outside the chain changes; whenever that leaves no cluster out, the bytes are appended |
| FatFiles.FileDescriptor.WriteAll | kernel/fat.cpp:319-362 | after any number of such writes the file holds their concatenation |
| FatFiles.FileDescriptor.ReadAll | kernel/fat.cpp:288-317 | any mix of reads yields consecutive pieces, each of the size asked for as far as the file goes |
| FatFiles.RoundTrip | kernel/fat.cpp:288-362 | what is written to an empty file comes back in order, in pieces of the sizes asked for; the file size is its length, and no cluster in use before has changed |
| FatFiles.OtherFileKept | kernel/fat.cpp:319-362 | so another file keeps its chain and its bytes |
| FatFiles.NewFileExactly | kernel/fat.cpp:324-333 | a file has no clusters if and only if the first cluster of its entry is zero; otherwise its first byte goes to a cluster in use |
| FatNames.NameIsEqual | kernel/fat.cpp:119-134 | a valid name, typed in any case, is the stored one exactly if that has its characters in capitals, the extension from the ninth on, and spaces around them |
| FatNames.SetFileName | kernel/fat.cpp:214-229 | each of the eleven characters, for any name: in capitals what is before its last dot and what is behind it, and spaces; a valid name is stored in its 8.3 form |
| FatNames.StoredIs | kernel/fat.cpp:214-229 | which is that form, character by character |
| FatNames.TypedIsStored | kernel/fat.cpp:119-134 | the comparison and the storing of a valid name agree |
| FatNames.StoredInjective | kernel/fat.cpp:214-229 | different names are stored differently, up to case |
| FatDirectories.FoundIs | kernel/fat.cpp:93-116 | an entry is found if it is the first of its name before the byte 0 that ends the directory; a free one begins with 0 or 0xe5 |
| FatDirectories.CreatedIsFound | kernel/fat.cpp:192-264 | the new entry is found, and every entry found before still is, also in a directory that grew by a cleared cluster |
| FatDirectories.Directories.FindFile | kernel/fat.cpp:93-116 | the first entry in use of that name, over all clusters; nothing exactly if there is none before the end mark |
| FatDirectories.Directories.AllocateEntry | kernel/fat.cpp:192-211 | the first entry not in use, or the first of a cleared cluster added to the directory |
| FatDirectories.Directories.CreateFile | kernel/fat.cpp:257-263 | the directory stays well formed, the new entry is found under its name, and keeps the first cluster and the attributes that its place held |
| FatDirectories.Directories.CreateThenFind | kernel/fat.cpp:81-264 | creating and then finding yields the same place |

## Left out

- Assembly, context switching beyond "another task is current", interrupt and descriptor tables, and the TLB: translations are those in memory.
- Writes by the kernel through read-only user pages, which the processor allows because CR0.WP is clear (kernel/paging.cpp:34): copy-on-write is stated for accesses in user mode.
- Faults that are not user-mode writes to present pages, for addresses below the upper half: the identity-mapped huge pages there are never touched by these functions.
- MemoryManagement.BitmapMemoryManager.SetBit: a bitmap word is a sequence of 64 truth values; the masks and shifts of lines 65 and 72-76 are not modelled as arithmetic.
- MemoryManagement.InitializeMemoryManager: the heap reservation after the marking (kernel/memory_manager.cpp:133) is not part of this model.
- Paging.PhysicalMemory.CleanPageMap: stated for start addresses whose lower indices are zero; the source uses the same indices at every level, so another start would skip entries of every table. Its only caller passes such an address.
- Paging.PhysicalMemory.SetupPageMap: for a tree that owns its writable pages alone, present pages must have the permission asked for; RemappingTakesFrames says what happens otherwise. For a tree that owns every page there is no such condition.
- Paging.PhysicalMemory.SetPageContent: stated for pages that are present and read-only, as its only caller finds them; it is not defined in the source where a table is missing.
- AppLifetime.Kernel.SetupPageMaps: stated for absent pages, as the kernel uses it.
- AppLifetime.Kernel.Launch: the early returns of LoadApp and ExecuteFile do not give frames back (kernel/terminal.cpp:207-214, kernel/terminal.cpp:578-595); these frames stay allocated in the model as well, so conservation is stated for successful runs. A launch is one step, although the source runs it, and the frame allocator, with interrupts on: a page fault of another task between the test and the marking of a frame (kernel/memory_manager.cpp:9-30) is not modelled.
- AppLifetime.Kernel.Exit: likewise one step.
- AppLifetime.Kernel.MapFile: a file larger than the space below the last mapping would wrap around; in the model it is refused.
- AppLoading.LoadElf: the copying of segment contents and the checks of the ELF header are not part of this model; the pages of the program hold arbitrary contents.
- AppLifetime.Kernel.BuildStacks: the argument vector that is written into the argument page is left out.
- A program's files are byte strings in the address-space part, and do not change while it runs; their clusters are the subject of the FAT32 part.
- FrameBuffers.FrameBuffer.Move: both places lie in the buffer and no row is copied onto an overlapping part of itself, where the source's memcpy is not defined.
- FrameBuffers.FrameBuffer.Copy: pixels are values in rows; bytes per pixel, scan-line padding and 32-bit overflow of coordinates are not modelled.
- Layers.LayerManager.Draw: drawing a hidden layer is left out, because the source then reads an uninitialized rectangle; so are areas with one negative size.
- Layers.LayerManager.Move: moving the bottom layer is left out, because the desktop would no longer cover the screen; so are opaque layers above transparent ones, because the redraws ignore the area for transparent windows.
- Layers.RedrawProper: areas with one negative size are left out.
- ActiveLayers.ActiveLayer.Activate: the title bars are given as new pixels of the two windows; the messages to their tasks are not modelled.
- ActiveLayers.CloseLayer: the table of layers and tasks is not part of this model.
- Tasks.TaskManager.WaitFinishStep: each task is waited for by one task and once, as the terminal does; a second waiter would replace the first.
- Tasks.TaskManager.SleepTask: the idle task is not put to sleep; nothing in the source does that, and the queues would run empty.
- Tasks.TaskManager.Sleep: no code puts another task to sleep by id, so a sleeper of that kind is not part of the runs.
- Pipes.PipeDescriptor.ReadStep: the reader alone takes the messages of its task; reading anywhere else would drop bytes.
- Zlib.Zbuf.FillBits: bytes come from a buffer in memory, not from callbacks; the rest of the image viewer is left out.
- EventRings.EventRing.ProcessEvent: which handler gets the event is not part of it; the handlers are those of Enumeration.
- Rings.Ring.Push: nothing checks for a full ring, so the room is a precondition; doorbells and register layouts are left out.
- Enumeration.Controller.AddressDevice: the contexts that are filled in for the controller, and what the controller does with them, are left out; what it reports is arbitrary.
- FatFiles.FileDescriptor.Write: where a write reports more than it was given, or leaves a cluster out, the content that the file then has is not described, only the number reported, the size and the clusters taken. The memory behind the buffer, which it then copies too, is a parameter.
- FatChains.Volume.ExtendCluster: the search for free clusters has no bound, so enough free clusters are a precondition; entries are compared with all their 32 bits as in the source.
- FatDirectories.Directories.FindFile: paths with slashes, which walk from directory to directory, are left out. Directory clusters are seen as entries and file clusters as bytes; that one memory holds both is not modelled.
- FatDirectories.Directories.CreateFile: a deleted entry that is used again keeps its attributes and first cluster, as in the source.
- Fonts, terminals' drawing, the mouse cursor, PCI, ACPI, timers, the boot loader and the demo apps would add nothing to these proofs.
