# Boot entries and framebuffer blitting, in Dafny

This project models two components of u-root.

**`pkg/bls`** reads boot entries in the format of the Boot Loader
Specification ("Type #1 Boot Loader Specification Entries").
- An entry file is read line by line:
  - comment lines are skipped;
  - lines that do not split into exactly two whitespace-separated fields are skipped;
  - a `linux` or `initrd` line names a file relative to the parent of the entries directory, and that file is opened;
  - each `options` line adds one piece of the kernel command line.
- An entry without a kernel or without an initrd is refused.
- `ScanBLSEntries` and `ScanEFIEntries` keep the entries that parse and skip the rest.
- Type #2 (EFI) entries are always refused.

**`pkg/fb`** writes an image into a flat framebuffer in place.
- Each pixel is stored as its blue, green and red bytes, plus its alpha byte when a pixel takes four bytes.
- `DrawOnBufAt` writes the bytes at an offset computed from the pixel position, the image position and the screen width.
- `DrawScaledOnBufAt` writes every pixel as a `factor` x `factor` block of copies.

Modules, one per file:
- `Wrappers` (`wrappers.dfy`): `Option` and `Result`.
- `Strings` (`strings.dfy`): Go's `strings.Fields`, `strings.Join` and `strings.HasPrefix`. Whitespace is Go's `unicode.IsSpace`.
- `FilePath` (`filepath.dfy`): Go's `filepath.Clean`, `Dir` and `Join` on Unix paths, including `.` and `..`.
- `Bls` (`bls.dfy`): the entry parser and the two scans.
- `Framebuffer` (`fb.dfy`): the two drawing routines.

The file system is abstract. `os.Open` succeeds exactly on the paths that
are keys of `FileSystem.files`, and an opened entry file reads as the
sequence of lines mapped to its path. The result of `filepath.Glob` is an
input, either the matched paths in order or a malformed pattern.

The parse and the scans are methods with loops. The parse and the Type #1
scan are each proved equal to a reference function that folds over the
lines or the files in order (`ParsedEntry`, `Bootable`). The Type #2 scan is
proved to return the empty list, since `ParseEfiEntry` refuses every entry.
Lemmas then describe the reference functions without reference to the
parser's state:
- the last `linux` and `initrd` lines win;
- the command line is the options values joined by single spaces;
- the first kernel or initrd that cannot be opened is the error;
- a skipped line has no effect wherever it stands.

The drawing routines take the buffer as an `array<byte>`. Each is proved
to leave the buffer equal to the old contents after a list of byte writes,
in loop order (`Apply`). The model does not assume that pixels do not
overlap: each byte holds the last value written to it (`ApplyIsLastWrite`).
When the image is no wider than the screen (`factor * w` for the scaled
routine) and a pixel takes at least three bytes, every pixel's bytes hold
that pixel. Every byte outside the drawn pixels keeps its value, whatever
the geometry.

The scaled routine's copy loops run from 1 to `factor`, and the loop
counters are added to the position. As a result, a scale factor of 1 draws
the image one column right and one line down from where `DrawOnBufAt` puts
it (`ScaledUnitIsShiftedDraw`). The model keeps this behaviour as written.

The inner two loops of `DrawScaledOnBufAt` are the methods `DrawBlock` and
`DrawColumn`, so that each loop is proved on its own. They perform the same
writes, in the same order.

## Model

| member | source | states |
|---|---|---|
| Bls.ParseBlsEntry | pkg/bls/bls.go:101-149 | The line-by-line parse returns exactly `ParsedEntry`: the open error of the entry file; else the first kernel or initrd path that cannot be opened; else the missing kernel or initrd error; else the image with the last kernel, the last initrd and the options joined by spaces |
| Bls.ScanBlsEntries | pkg/bls/bls.go:55-73 | A malformed glob pattern is the only error. Otherwise the result is the images of the matched files that parse, in glob order (`Bootable`), with entries relative to `fsRoot/loader/entries` |
| Bls.ScanEfiEntries | pkg/bls/bls.go:78-96 | A malformed glob pattern is the only error. Otherwise the result is always empty, since every EFI entry is refused |
| Bls.ParseEfiEntry | pkg/bls/bls.go:153-156 | Every Type #2 entry is refused, with the error "EFI entries are not yet supported" |
| Bls.Bootable | pkg/bls/bls.go:63-72 | A scan never yields more entries than there are files |
| Bls.BootableIsOrderedFilter | pkg/bls/bls.go:63-72 | Every kept image is the parse of a file in the list; the files they come from are in strictly increasing order; every file that parses is kept |
| Bls.BootableAppend | pkg/bls/bls.go:64-71 | Scanning two file lists back to back gives the entries of the first followed by those of the second, so a bad file never disturbs the others |
| Bls.ScanLinesWithoutBadReference | pkg/bls/bls.go:114-141 | When every kernel and initrd reference opens, the scan succeeds with the resolved last kernel, the resolved last initrd and all options values in file order |
| Bls.ScanLinesErrorPersists | pkg/bls/bls.go:127-136 | Once an open has failed, later lines change nothing: the parse stops there |
| Bls.ScanLinesStopsAtFirstBadReference | pkg/bls/bls.go:125-137 | The scan fails with the path of the first kernel or initrd line that cannot be opened |
| Bls.SkippedLineHasNoEffect | pkg/bls/bls.go:116-140 | Inserting a comment line, a line without exactly two fields, or a line with a key other than linux, initrd and options anywhere in a file does not change the outcome |
| Bls.ReadLineShape | pkg/bls/bls.go:116-140 | The converse of `TwoFieldLine`: every line that takes effect is its key (`linux`, `initrd` or `options`, matching the directive) and a single non-empty word without white space as its value, with white space before, after and, at least one character of it, between them |
| Bls.TwoFieldLine | pkg/bls/bls.go:116-140 | A line made of a key and a value with any white space around and between them splits into those two fields and is read by its key: a kernel, an initrd, an options value, or skipped for another key or when the line starts with `#` |
| Bls.LineWithoutTwoWordsIsSkipped | pkg/bls/bls.go:119-122 | A line of words separated by single spaces is skipped whenever it has other than two words, so `options a b` contributes nothing |
| Bls.ParsedEntryWithoutBadReference | pkg/bls/bls.go:101-149 | For an entry whose references all open: the error "kernel or initrd missing" when either is absent; otherwise the image of `Dir(entriesDir)` joined with the last kernel and last initrd values, and the options joined by single spaces |
| Bls.ParsedEntryStopsAtFirstBadReference | pkg/bls/bls.go:126-137 | Parsing an entry fails with the first reference, resolved against `Dir(entriesDir)`, that cannot be opened |
| Bls.OptionValuesAreFields | pkg/bls/bls.go:119-139 | Every collected options value is a single non-empty field without whitespace |
| Bls.CmdlineSplitsIntoOptions | pkg/bls/bls.go:138-147 | The command line of a parsed entry splits back into exactly the options values of the file, in order |
| Strings.Fields | pkg/bls/bls.go:119 | Every field is non-empty and free of whitespace, and the fields concatenated are the non-whitespace characters of the line, in order. Which runs of the line are the fields is stated by `Strings.FieldsCons` and `Strings.FieldsOfSpace`, which together fix the split of every line |
| Strings.FieldsAfterSpace | pkg/bls/bls.go:119 | White space at the start of a line, of any length and kind, does not change its fields |
| Strings.FieldsOfSpace | pkg/bls/bls.go:119 | A line of white space only has no fields |
| Strings.FieldsCons | pkg/bls/bls.go:119 | The first field is the first maximal run of non-space characters: after leading white space, a word ending at white space or at the end of the line is the first field, and the rest of the line gives the other fields |
| Strings.FieldsOfTwo | pkg/bls/bls.go:119-120 | Two words with any white space around and between them split into exactly those two fields |
| Strings.NoFieldsAllSpace | pkg/bls/bls.go:119 | A line without fields is made of white space only (the converse of `FieldsOfSpace`) |
| Strings.FieldsFirst | pkg/bls/bls.go:119 | The converse of `FieldsCons`: a line with a field is white space, then its first field, then a rest that is empty or starts with white space and whose fields are the remaining ones |
| Strings.TwoFieldsShape | pkg/bls/bls.go:119-120 | The converse of `FieldsOfTwo`: a line of exactly two fields is those two words with white space around them and at least one white-space character between them |
| Strings.FieldsOfJoin | pkg/bls/bls.go:147 | Joining non-empty, whitespace-free words with single spaces and splitting the result gives the words back |
| Framebuffer.Low8OfWidened | pkg/fb/main.go:37-42 | `byte(...)` of an 8-bit channel widened to 16 bits by `RGBA()` gives the channel back |
| Framebuffer.PixelWrites | pkg/fb/main.go:39-45 | A pixel writes exactly three bytes (four when a pixel takes four bytes), at offset, offset+1, offset+2 (and offset+3): the low bytes of blue, green, red (and alpha) |
| Framebuffer.Apply | pkg/fb/main.go:40-45 | Writing bytes never changes the buffer length |
| Framebuffer.ApplyIsLastWrite | pkg/fb/main.go:35-47 | After a list of writes, each byte holds the last value written to it, or its old value when none was |
| Framebuffer.PutPixel | pkg/fb/main.go:40-45 | Storing one pixel performs exactly the writes of `PixelWrites`, and nothing else changes |
| Framebuffer.DrawOnBufAt | pkg/fb/main.go:27-48 | When every pixel lies inside the buffer, the buffer ends as its old contents after the pixel writes in row-major order, pixel (x, y) at offset `bpp * ((posy + y) * width + posx + x)` |
| Framebuffer.DrawPlacesPixel | pkg/fb/main.go:35-45 | When the image is no wider than the screen and a pixel takes at least three bytes, byte c of pixel (x, y)'s slot holds channel c (blue, green, red, alpha) of that pixel |
| Framebuffer.DrawLeavesOtherBytes | pkg/fb/main.go:35-47 | A byte outside every drawn pixel keeps its value |
| Framebuffer.DrawScaledOnBufAt | pkg/fb/main.go:50-75 | When every copy lies inside the buffer, the buffer ends as its old contents after the writes of copy (sx, sy), for sx and sy from 1 to factor, of every pixel in (y, x, sx, sy) loop order, at `(posx + x*factor + (posy + y*factor + sy)*width + sx) * bpp` |
| Framebuffer.DrawBlock | pkg/fb/main.go:62-72 | The two copy loops for one pixel perform the writes of all its copies, column by column |
| Framebuffer.DrawColumn | pkg/fb/main.go:63-71 | The innermost copy loop performs the writes of copies (sx, 1) .. (sx, factor) |
| Framebuffer.ScaledPosDistinct | pkg/fb/main.go:64 | When `factor * w` is at most the screen width, distinct copies of distinct pixels never share a position |
| Framebuffer.ScaledPlacesPixel | pkg/fb/main.go:59-70 | When `factor * w` is at most the screen width and a pixel takes at least three bytes, every copy of pixel (x, y) holds that pixel's blue, green, red (and alpha) bytes |
| Framebuffer.ScaledLeavesOtherBytes | pkg/fb/main.go:59-74 | A byte outside every copy of every pixel keeps its value |
| Framebuffer.ScaledWithoutFactor | pkg/fb/main.go:62-63 | A factor of zero or less leaves the buffer unchanged |
| Framebuffer.ScaledUnitIsShiftedDraw | pkg/fb/main.go:62-64 | Scaling by one writes what `DrawOnBufAt` writes for the image placed one column right and one line down |

## Left out

- `FindAllEntries` (pkg/bls/bls.go:30-50) is left out. It creates a directory, mounts and unmounts a device, and logs.
- Opening files is abstract: `os.Open` is membership in `FileSystem.files`, and `defer f.Close()` and the kernel and initrd file handles are not modelled. An image records the path each file was opened at.
- `bufio.Scanner` is abstract: an entry file is its sequence of lines. The 64 KiB line limit is not modelled. The source never checks `scanner.Err()`, so a line over that limit would silently end the file.
- Go strings are byte strings, and `strings.Fields` decodes them as UTF-8. The model's lines are sequences of decoded characters, so a line holding invalid UTF-8 cannot be represented. The keys and the `#` marker are ASCII, and Go reads each invalid byte as U+FFFD, which is not white space and so stays inside a field. How a line is classified therefore never depends on invalid bytes; only values that hold such bytes cannot be represented.
- `filepath.Glob` pattern matching is an input: the matched paths, or a malformed pattern.
- The logging by `fmt.Println` of skipped entries is left out.
- Error values carry their cause, not Go's formatted text. `Error.Message` gives the text of the two errors the package creates.
- `DrawImageAt`, `DrawScaledImageAt` and `DrawDigits` write a buffer to `/dev/fb0` and are left out. `DrawDigitAt` is not part of this model.
- `image.Image` and `color.Color.RGBA()` are library code. An image is a rectangle of `(r, g, b, a)` 32-bit tuples, as `RGBA()` returns them.
- Go's `int` is 64 bits wide. The offset arithmetic is modelled on unbounded integers, so overflow of the offset computation is not modelled.
- DrawOnBufAt: requires every offset to lie inside the buffer, because an index out of range panics in Go; the panic itself is not modelled.
- DrawScaledOnBufAt: requires every offset to lie inside the buffer, for the same reason.
- DrawPlacesPixel: states where a pixel lands only when pixels cannot overlap (image no wider than the screen, at least three bytes per pixel). For overlapping pixels `ApplyIsLastWrite` gives the last write in loop order.
- ScaledPlacesPixel: likewise only when `factor * w` is at most the screen width and a pixel takes at least three bytes.
- The TPM code of `pkg/tss/keys.go` is left out. Every seal, unseal and reseal operation hands over to TPM library calls whose behaviour is not visible. Its local logic has evident defects:
  - an empty password yields an all-zero authorization value, not a hash (pkg/tss/keys.go:42-46, 70-74);
  - `srkAuth.TPMMarshal` writes into the buffer instead of reading the hash, so the policy stays empty (pkg/tss/keys.go:48-58);
  - `reseal20` uses the same PCR selection to certify and to seal (pkg/tss/keys.go:154-165);
  - its error calls pass the cause to `fmt.Errorf` without a `%v` or `%w` verb (pkg/tss/keys.go:77, 91, 105). The cause's text still appears, after `%!(EXTRA ...)`, but the error is not wrapped, so `errors.Is` and `errors.Unwrap` cannot reach it. The message of `unseal12` also says "seal" (pkg/tss/keys.go:105).
- `pkg/pacman` fetches and decodes network data and is left out.
- `integration/main_test.go` is a test harness that runs virtual machines and is left out.
