# Feecc print server: the label printing pipeline in Dafny

This project models the core of the Feecc print server: the `Printer` class,
which takes an image (and optionally an annotation) and prints it on a Brother
QL label printer attached over USB. One job goes through these steps:

1. **Locate the printer** (`Printer._address`). Filter the `lsusb` listing to
   the lines that mention the printer model. Take the leftmost
   `hhhh:hhhh` hexadecimal pair and format it as `usb://0x<vendor>:0x<product>`.
   Any failure gives `None`. The locator is in module `UsbLocator`.
2. **Drop the job when the printer is not on the bus** (`print_image`). This
   happens before any image work, whatever `/dev/usb` holds.
3. **Resize the image** (`_get_image`). The width is 696 pixels for paper
   width `"62"` and 554 for any other value. The height is the proportional
   height, truncated. The arithmetic is in module `Sizing`.
4. **Annotate, when the annotation is truthy** (`_annotate_image`). Make a
   white RGB canvas as wide as the image and `txt_h + 5` pixels taller. Paste
   the image at the origin. Compute the text anchor from the new height. This
   is in module `Annotation`.
5. **Send with fallback** (`_print_image`). The candidates are the `pyusb`
   pair with a second, fresh address lookup, then one `linux_kernel` pair per
   `/dev/usb` entry whose name starts with `lp`, in listing order. Each
   candidate is tried in turn. The loop stops at the first `send` that does
   not raise. If every one fails, it raises `BrokenPipeError`. This is in
   module `Transport`.

Module `Printing` sequences the steps in `PrintImage`. Module `Wrappers` holds
`Option` (Python's `None`) and `Outcome` (a call that returns or raises).

Everything the source gets from the outside world is an input:

- the `lsusb` text seen by each of the two address lookups (lines 50 and 89);
- the `/dev/usb` listing, or the fact that listing it raised;
- the decoded image size;
- a resampler giving the resized image's pixels;
- the measured height of the wrapped text;
- one `send` outcome per candidate.

A job's image work is recorded in a ghost trace of steps, and its sends in a
ghost trace of the candidates tried.

The printer's configuration (`PAPER_WIDTH`, `PRINTER_MODEL`, `RED`) is read once
and never changed. It is therefore a datatype `Config`, not a class. The
module-level asserts become the predicate `ValidConfig`.

Three behaviours of the code are easy to misread, and the model keeps them as written:

- the height is truncated, not rounded, and can be 0, which makes the resize
  raise;
- the job is dropped whenever the address lookup fails, even when `lp`
  devices exist;
- an empty candidate list cannot happen, because the `pyusb` pair is always
  inserted.

## Model

| member | source | states |
|---|---|---|
| `UsbLocator.FindPair` | src/feecc_printer/Printer.py:38-39 | The result is the leftmost index where `[0-9a-fA-F]{4}:[0-9a-fA-F]{4}` matches at or after `from`. It is `None` exactly when no index matches. |
| `UsbLocator.Address` | src/feecc_printer/Printer.py:33-46 | The locator gives `None` exactly when the grep output holds no hex pair. Otherwise it gives `usb://0x` + vendor + `:0x` + product, taken from the leftmost match with letter case kept. |
| `UsbLocator.AddressShape` | src/feecc_printer/Printer.py:39-41 | Every address found is 19 characters long. It reads `usb://0x`, then four hex digits, then `:0x`, then four hex digits. |
| `UsbLocator.AddressFoundIff` | src/feecc_printer/Printer.py:36-46 | An address is found exactly when some line of the listing both contains the model string and holds a hex pair. With no line naming the model, the answer is `None`, not an error. |
| `UsbLocator.AddressFromFirstLine` | src/feecc_printer/Printer.py:36-41 | When several devices of the model are attached, the address comes from the one `lsusb` lists first: it is built from the first pair of the first line that both mentions the model and holds a pair. |
| `UsbLocator.GrepAppend` | src/feecc_printer/Printer.py:36-37 | Filtering two listings joined gives the output of the first followed by the output of the second, so grep keeps the listing's order. |
| `UsbLocator.GrepHasPair` | src/feecc_printer/Printer.py:36-38 | The filtered output holds a hex pair exactly when one of the lines that mention the model holds one. |
| `UsbLocator.Grep` | src/feecc_printer/Printer.py:36-37 | The filtered output is empty exactly when no line of the listing contains the model string. When it is not empty, it ends with a newline. |
| `UsbLocator.PairAcrossNewline` | src/feecc_printer/Printer.py:38 | No match spans a line break. A pair occurs in two lines joined by a newline exactly when it occurs in one of them. |
| `UsbLocator.ContainsIff` | src/feecc_printer/Printer.py:36 | grep's line filter, taken as a plain substring test, holds exactly when the model occurs at some offset of the line. |
| `UsbLocator.Lines` | src/feecc_printer/Printer.py:36-37 | Splitting the listing into lines gives lines that contain no newline. |
| `UsbLocator.JoinLinesLines` | src/feecc_printer/Printer.py:36-37 | Joining the lines of a newline-terminated listing, each followed by a newline, gives the listing back, so no character is lost or added by the split. |
| `UsbLocator.LinesJoinLines` | src/feecc_printer/Printer.py:36-37 | Splitting a newline-terminated listing gives back exactly the lines it was made of. |
| `Sizing.TargetWidth` | src/feecc_printer/Printer.py:73 | The target width is always 696 or 554. It is 696 exactly when the paper width string is `"62"`. |
| `Sizing.TargetHeight` | src/feecc_printer/Printer.py:74 | The target height is `h * target_w / w` truncated: `th * w <= h * target_w < (th + 1) * w`. |
| `Sizing.PreparedSize` | src/feecc_printer/Printer.py:72-75 | The resized image has the paper's target width and the truncated proportional height. |
| `Sizing.HeightKeptAtTargetWidth` | src/feecc_printer/Printer.py:74 | An image already at the target width keeps its height. |
| `Sizing.HeightMonotone` | src/feecc_printer/Printer.py:74 | For a fixed width, a taller original never gives a shorter resized image. |
| `Sizing.HeightZeroIff` | src/feecc_printer/Printer.py:74 | The target height is 0 exactly when `h * target_w < w`. Nothing in the source prevents this. |
| `Sizing.ZeroHeightExample` | src/feecc_printer/Printer.py:73-74 | A 2000x1 image on `"62"` paper gets target size 696x0. |
| `Sizing.PreparedExample` | src/feecc_printer/Printer.py:72-75 | A 600x400 image gets 696x464 on `"62"` paper and 554x369 on any other paper, in exact arithmetic. |
| `Annotation.AnnotatedSize` | src/feecc_printer/Printer.py:129 | The canvas is as wide as the image. It is exactly `txt_h + 5` rows taller, so always taller. |
| `Annotation.TextAnchor` | src/feecc_printer/Printer.py:131-136 | The anchor's x is half the canvas width, rounded down. Its y is the middle of the band below the image, rounded down, so it lies in that band. |
| `Annotation.AnnotateCanvas` | src/feecc_printer/Printer.py:129-136 | The new canvas has the annotated size. Each pixel above the band equals the image's pixel at the same point; every other pixel is white. The anchor is `TextAnchor`. |
| `Transport.PyStr` | src/feecc_printer/Printer.py:89 | `str()` of the second lookup is the address itself, or the literal `"None"` when that lookup failed. |
| `Transport.KernelBackends` | src/feecc_printer/Printer.py:87-88 | Each listing entry gives at most one kernel candidate. |
| `Transport.Candidates` | src/feecc_printer/Printer.py:86-89 | The candidate list is never empty, is at most one longer than the listing, and starts with `("pyusb", str(address))`. |
| `Transport.KernelBackendsAppend` | src/feecc_printer/Printer.py:87-88 | The kernel candidates of two listings joined are those of the first, then those of the second. So candidates keep the listing's order. |
| `Transport.KernelBackendsMembers` | src/feecc_printer/Printer.py:87-88 | `/dev/usb/<entry>` is a kernel candidate exactly when the entry is in the listing and starts with `lp`. |
| `Transport.KernelBackendsFromListing` | src/feecc_printer/Printer.py:87-88 | Every kernel candidate uses the `linux_kernel` backend with the path of an `lp` entry of the listing. |
| `Transport.KernelBackendInjective` | src/feecc_printer/Printer.py:87 | Different entries give different device paths. |
| `Transport.CandidatesShape` | src/feecc_printer/Printer.py:86-89 | The candidate list is never empty. It starts with `("pyusb", str(address))`, is followed by exactly the kernel candidates, and has at most one more element than the listing. |
| `Transport.BuildBackends` | src/feecc_printer/Printer.py:86-89 | Building the list entry by entry and inserting the `pyusb` pair at the front gives the candidate list above. |
| `Transport.SendFirst` | src/feecc_printer/Printer.py:90-108 | The loop succeeds exactly when some `send` succeeds. On success at first index `k` it made exactly `k + 1` sends, to candidates `0..k` in order. Otherwise it tried every candidate. |
| `Transport.PrintRaster` | src/feecc_printer/Printer.py:78-108 | When listing `/dev/usb` raises, the job fails before any send. Otherwise the job is delivered exactly when some candidate accepts it. If none does, it raises `BrokenPipeError` with the source's message after trying every candidate, so there is at least one send. |
| `Printing.PrintImage` | src/feecc_printer/Printer.py:48-75 | When the first lookup fails, the job raises "Printer disconnected. Task dropped." with no image work and no send. When the image does not decode, has width 0, or gets a target height of 0, the job raises before any image is made and any send. Otherwise it resizes the image and annotates it exactly when the annotation is truthy. It then returns the transport's outcome, with the candidate list built from the second lookup. The image it states (size and pixels) is the canvas before the text is drawn. |

## Left out

- Running `lsusb | grep` (Printer.py:36-37) is left out; the listing text is an input. The model string is matched as a plain substring, while grep reads it as a basic regular expression. The model string sits inside double quotes in a shell command, where a double quote, `$`, a backquote or a backslash in it would be interpreted by the shell; this is not modelled.
- Reading `/dev/usb` (Printer.py:87) is left out; the listing is an input sequence in directory order, or `None` when `os.listdir` raises (the directory is missing or unreadable), which fails the job before any send.
- Decoding the image (Printer.py:67-70) is left out; the decoded size is an input, or `None` when `Image.open` raises, which fails the job before any send. A decoded width of 0 fails the job with the `ZeroDivisionError` of line 74.
- PIL's resampling (Printer.py:75) is left out; the resized pixels come from an input function. A target height of 0 makes `resize` raise `ValueError` ("height and width must be > 0"), so the job fails before any send.
- Printing.PrintImage: treats a decoded image whose own height is 0 like any other zero target height, as rejected by `resize`; PIL may instead return a copy when the requested size equals the image's own size.
- Sizing.TargetHeight, Sizing.PreparedSize, Sizing.PreparedExample, Sizing.HeightZeroIff: compute with the exact quotient, while the source uses floating point. The float result can be one less when the exact quotient is a whole number. For example, `400 * (696 / 600)` is `463.99999999999994` in double precision, so the source resizes a 600x400 image to 696x463 where the model gives 696x464. Likewise `49 * (696 / 34104)` is `0.9999999999999999`, so a 34104x49 image on `"62"` paper gets height 0 in the source and 1 in the model.
- Transport.PrintRaster: raster conversion (`BrotherQLRaster`, `conversion.convert`, Printer.py:81-82) and the `RED` flag it receives are left out, and the raster job is opaque. Conversion can raise before any send; the model assumes it returns.
- Printing.PrintImage: the same conversion failure is not modelled, so the job's outcome is stated for a conversion that returns.
- `send` (Printer.py:94-98) is left out; its outcome for each candidate is an input, and its returned status is only logged.
- Font loading, the average character width, `textwrap.fill` and text measurement (Printer.py:114-126) are left out; the measured text height `txt_h` is an input. The font-file assert (line 115) is not modelled.
- Drawing the text (Printer.py:137-144) is left out; the canvas is modelled up to the point where the text is drawn.
- Printing.PrintImage: states the pixels of the annotated canvas before the text is drawn into its band. The source draws the text before handing the image on, so the band it sends is not all white.
- Annotation.AnnotateCanvas: models every pixel as RGB. PIL converts an image of another mode when pasting it; this conversion is not modelled.
- Logging throughout, and the HTTP endpoint in src/app.py that maps any exception to a 500 response, are left out.
- Reading the environment at import (Printer.py:17-22) is left out; the configuration is a value passed in.
