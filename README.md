# extract-window-icon, modelled in Dafny

This project models the pure-data core of `extract-window-icon`, a tool that pulls an
application icon out of a running X11 window. The tool works in three steps:

- **`_NET_WM_ICON` scanner and selector** (`net_wm_icon.dfy`, module `NetWmIcon`). The
  property value is a flat array of 32-bit words. It holds back-to-back records
  `width, height, width*height ARGB pixels`, as laid out in the Application Window
  Properties part of the freedesktop Extended Window Manager Hints. The reply header is
  checked first: it must be present, of type CARDINAL and format 32, and hold at least
  2 words. The records are then walked left to right. A record is read while at least
  two words remain. The walk stops at the first record whose `width*height` (a 64-bit
  product that cannot wrap) does not fit in the words after its header. Empty records
  (a zero dimension) are stepped over. A running best record is kept under the
  grow-toward / shrink-toward rule. `Scan` gives the records visited. `IsBest` states
  the choice without the loop: the smallest size (greater dimension) at least the
  preferred size if one exists, otherwise the largest size, and the earliest record
  among equal sizes. `SelectIcon` is the loop. Its invariant (`Accumulated`) ties the
  running choice to `IsBest` over the records seen so far. `IconFromReply` hands the
  chosen record to the converter.
- **Premultiplied-alpha converter** (`pixels.dfy`, module `Pixels`). `Premultiply`
  fills a freshly allocated buffer of `width*height` samples. Each output sample is
  computed from the same-index input sample: alpha is kept, and R, G and B are scaled
  by alpha/255. The scaling is done in `double` and truncated to `uint8_t` in the
  source. Here it is a function parameter `scale`. The per-sample lemmas hold for every
  `scale` meeting `ScaleFacts`, which is what the C code guarantees: it never exceeds
  the channel value; alpha 255 gives the channel unchanged, since `255/255.0` is
  exactly 1.0; alpha 0 gives 0.
- **Visual lookup** (`visuals.dfy`, module `Visuals`). `FindVisual` is a nested linear
  search over the screen's allowed depths and their visuals. It returns the position of
  the first visual with the requested id.

`words.dfy` holds the fixed-width integer types. `wrappers.dfy` holds `Option`, which
stands for a nullable pointer. A pointer into the property value is a word offset.
A returned `xcb_visualtype_t *` is a (depth index, visual index) position.

## Model

| member | source | states |
|---|---|---|
| `Words.Max` | extract-window-icon.c:38 | the greater of two values, which is one of them |
| `Pixels.Alpha` | extract-window-icon.c:88 | the alpha byte of a sample: bits 24-31, `(p >> 24) & 0xff` |
| `Pixels.Red` | extract-window-icon.c:90 | the red byte of a sample: bits 16-23, `(p >> 16) & 0xff` |
| `Pixels.Green` | extract-window-icon.c:91 | the green byte of a sample: bits 8-15, `(p >> 8) & 0xff` |
| `Pixels.Blue` | extract-window-icon.c:92 | the blue byte of a sample: bits 0-7, `p & 0xff` |
| `Pixels.Pack` | extract-window-icon.c:93 | the four bytes packed as alpha, red, green, blue from the top byte down unpack back to exactly those bytes |
| `Pixels.PackOfChannels` | extract-window-icon.c:88-93 | unpacking a sample into A, R, G, B and repacking gives the same sample |
| `Pixels.ScaleFactsSatisfiable` | extract-window-icon.c:89-92 | the facts assumed of the per-channel scaling are consistent: a truncating integer scaling meets them |
| `Pixels.PremultiplySample` | extract-window-icon.c:88-93 | one output sample from one input sample: the alpha byte is kept and each colour byte is scaled by alpha/255 and repacked beside it (its ensures gives the kept alpha; the three lemmas below give the rest) |
| `Pixels.SampleChannels` | extract-window-icon.c:88-93 | premultiplying a sample keeps its alpha byte and leaves each colour byte at most what it was |
| `Pixels.SampleOpaque` | extract-window-icon.c:88-93 | a sample with alpha 255 is left bit-for-bit unchanged |
| `Pixels.SampleTransparent` | extract-window-icon.c:88-93 | a sample with alpha 0 becomes 0x00000000, whatever its colour bytes |
| `Pixels.PremultiplyAll` | extract-window-icon.c:86-94 | the converted buffer: as many samples as the input, sample i premultiplied from input sample i alone |
| `Pixels.PremultiplyOpaque` | extract-window-icon.c:86-94 | converting a buffer whose samples all have alpha 255 returns it unchanged, so converting it again changes nothing |
| `Pixels.PremultiplyTransparent` | extract-window-icon.c:86-94 | every alpha-0 input sample becomes 0 in the output buffer |
| `Pixels.Premultiply` | extract-window-icon.c:78-94 | returns a fresh buffer of `width*height` samples; sample i is input sample i premultiplied; the input array is only read |
| `NetWmIcon.WellFormed` | extract-window-icon.c:114 | the header check before any scanning: a reply is present, of type CARDINAL (atom 6), format 32, and at least 2 words long |
| `NetWmIcon.PixelCount` | extract-window-icon.c:128 | a record's pixel count, width times height computed without wrap-around as the 64-bit product is |
| `NetWmIcon.Next` | extract-window-icon.c:147 | the word offset of the following record: `data_size + 2` words after this record's header |
| `NetWmIcon.Fits` | extract-window-icon.c:126-129 | the loop continues at word offset o only when at least 2 words remain and the 64-bit product width*height is at most the words after the header; when it holds the whole record lies inside the blob |
| `NetWmIcon.Scan` | extract-window-icon.c:126-147 | the records the loop visits, in order: a record is read while it fits, the next starts 2 + width*height words on, and the first record that does not fit ends the scan |
| `NetWmIcon.ScanShape` | extract-window-icon.c:126-147 | every scanned record's header and pixels lie inside the blob (the fit check of lines 126-129); the first starts at the scan offset; each next one starts exactly `2 + width*height` words after the previous one (the advance of line 147), so records are visited in blob order |
| `NetWmIcon.ScannedRecordIn` | extract-window-icon.c:128-129 | any one scanned record fits wholly inside the blob |
| `NetWmIcon.ScanAdvances` | extract-window-icon.c:126-147 | a record that fits is the next one visited, and the scan resumes `2 + width*height` words further on |
| `NetWmIcon.ScanFinished` | extract-window-icon.c:126-150 | when the loop stops (under 2 words left, or a record that does not fit), the accumulator holds the result over every scanned record: nothing exactly when all are empty, else the best one |
| `NetWmIcon.TwoWordBlobHasNoIcon` | extract-window-icon.c:126-150 | a 2-word blob yields only empty records, hence no icon |
| `NetWmIcon.Size` | extract-window-icon.c:132 | the size matched against the preference: the greater of width and height |
| `NetWmIcon.IsEmpty` | extract-window-icon.c:137 | a record is empty when its width or its height is 0, and an empty record is never chosen |
| `NetWmIcon.Improves` | extract-window-icon.c:135-141 | the replacement rule for a non-empty record of size `size` against the current `found_size`: bigger while the current choice is too small, or no smaller than preferred but smaller than a current choice that is too large, or nothing chosen yet |
| `NetWmIcon.ImprovesKeepsBest` | extract-window-icon.c:132-145 | applying the replacement rule to one more record turns the best choice among the records so far into the best choice among them plus that record |
| `NetWmIcon.SelectionStep` | extract-window-icon.c:132-147 | one loop step keeps the accumulator correct: `found_size == 0` exactly when nothing is chosen; nothing is chosen only while all records seen are empty; otherwise the choice is the best record seen |
| `NetWmIcon.BestIsUnique` | extract-window-icon.c:122-125 | the selection policy determines at most one record |
| `NetWmIcon.BestExists` | extract-window-icon.c:122-125 | whenever some record is non-empty, a best record exists |
| `NetWmIcon.ExactMatchWins` | extract-window-icon.c:135-141 | if a non-empty record of exactly the preferred size is present, the chosen size is the preferred size |
| `NetWmIcon.OnlyCandidateIsBest` | extract-window-icon.c:137-141 | the only non-empty record is chosen whatever the preferred size |
| `NetWmIcon.ExampleExactMatch` | extract-window-icon.c:122-125 | sizes 16, 32, 48, 128 with 48 preferred: the 48 record and no other is chosen |
| `NetWmIcon.ExampleNearestLarger` | extract-window-icon.c:122-125 | sizes 16, 32, 64 with 40 preferred: the 64 record (smallest at least 40), not 32 |
| `NetWmIcon.ExampleLargestBelow` | extract-window-icon.c:122-125 | sizes 16, 32, 64 with 200 preferred: the 64 record (largest, none reaches 200) |
| `NetWmIcon.SelectIcon` | extract-window-icon.c:111-150 | no icon when the reply is missing, not CARDINAL, not format 32 or under 2 words; otherwise no icon exactly when every scanned record is empty; else the offset of the best scanned record, which fits in the blob |
| `NetWmIcon.IconFromReply` | extract-window-icon.c:108-153 | no surface exactly in the cases above; otherwise a fresh surface with the best record's width and height whose buffer is that record's pixels premultiplied |
| `Visuals.FindVisual` | extract-window-icon.c:168-181 | none exactly when the depth list is absent or no visual has the id; otherwise the position of a visual with that id before which, in depth then visual order, none has it |
| `Visuals.DefaultVisual` | extract-window-icon.c:183-187 | the lookup of the screen's root visual id: none exactly when the depth list is absent or no visual has that id; otherwise the first position, in depth then visual order, holding it |

## Left out

- The exact floating-point value of `c * (a / 255.0)` truncated to `uint8_t`: it is the parameter `scale`, constrained only by `ScaleFacts`.
- Pixels.Premultiply: the repacking `a << 24` shifts a promoted `int`, which overflows for alpha of 128 or more. The model takes the intended bit pattern.
- NetWmIcon.IconFromReply: requires the property value to hold fewer than 2^31 words. The source passes `uint32_t` width and height as `int` and multiplies them in an `int`. That bound keeps those conversions exact rather than modelling their overflow.
- The `if (!data) return 0` guard: `xcb_get_property_value` never returns NULL for a reply, so it is not modelled.
- The reply's `length` is taken as the number of 32-bit words. It is only used when the format is 32, where the two agree.
- The cairo surface itself and its user-data free callback: the model returns the buffer with its dimensions. The ownership transfer is not modelled.
- Atom interning (`init_atom`, `init_atoms`), the property, geometry and WM_HINTS requests (`get_net_wm_icon`, `get_wm_hints_icon`) and PNG writing are calls into xcb and cairo with no logic of their own. They are left out.
- `cairo_surface_from_pixmap`: the masking and compositing happen entirely inside cairo, so there is no pixel logic to model. On a geometry failure it returns `result` uninitialised.
- `parse_xid`: its behaviour is libc `sscanf` semantics.
- main: the output file names and exit codes are orchestration and I/O.
- `main.c` is not part of this model. It repeats `draw_find_visual` and duplicates the pixmap extraction.
- Visuals.FindVisual: returns a position, not the visual record, and models only visual ids. The other visual-type fields are never read by the lookup.
