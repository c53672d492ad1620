# Image to ASCII: the quantise-and-render step

This project models the core of `image_to_ascii` in a small Flask web
application that turns an uploaded picture into ASCII art. Once the picture
has been resized, converted to 8-bit grayscale and contrast-enhanced, each
pixel's luminance `p` (0 to 255) is normalised to `(p / 255) * 11` and
truncated to an index into the twelve-character ramp `"@#$%?*+;:,.!"`, which
runs from darkest to lightest. The characters of each row are concatenated,
and the rows are joined with newlines.

The model is pure, like the code it models:

- `text.dfy`, module `Text`: Python's `"\n".join(lines)` (`JoinLines`) and,
  as its partner, `s.split("\n")` (`SplitLines`). The round trip is proved
  in both directions.
- `image_to_ascii.dfy`, module `ImageToAscii`: the ramp `AsciiChars`, pixels
  as the subset type `Pixel` (0..255), the grid as rows of pixels, the ramp
  index `RampIndex(p) = p * 11 / 255` in integer arithmetic, the renderer
  `Render`, and the lemmas about them.

The index is computed in integer arithmetic. `RampIndexIsTruncatedQuotient`
proves that this equals the truncation of the exact real value of
`(p / 255) * 11`. `QuotientAwayFromIntegers` proves that for `0 < p < 255`
this value stays at least 1/255 away from every integer. A float64 rounding
error, which is many orders of magnitude smaller, therefore cannot change
the truncated index.

Pure white maps to `'!'`, the ramp character after `'.'`. The code does not
clamp the index and needs no clamp, because `RampIndex` is proved to stay
below 12.

## Model

| member | source | states |
|---|---|---|
| `ImageToAscii.RampIndex` | app.py:27-31 | the index of every pixel value lies in 0..len(ASCII_CHARS)-1, so indexing the ramp never fails; it is the floor of 11p/255 (`i*255 <= 11p < (i+1)*255`) |
| `ImageToAscii.Normalized` | app.py:27 | the normalised value `(p / 255) * (len(ASCII_CHARS) - 1)`, taken exactly, lies in 0..11 and is 11p/255 |
| `ImageToAscii.Truncate` | app.py:31 | `astype(int)` truncates toward zero: for x >= 0 the result is the largest integer not above x, for x < 0 the smallest not below it |
| `ImageToAscii.RampIndexIsTruncatedQuotient` | app.py:27-31 | the integer index equals `int((p / 255) * (len(ASCII_CHARS) - 1))` computed over exact reals with truncation toward zero |
| `ImageToAscii.QuotientAwayFromIntegers` | app.py:27 | for 0 < p < 255 the normalised value lies at least 1/255 from the integers on both sides of it, so float rounding cannot move it across an index boundary |
| `ImageToAscii.PixelChar` | app.py:30 | the character chosen for a pixel is a ramp character and never a newline |
| `ImageToAscii.RampIndexMonotone` | app.py:27-31 | a brighter pixel never gets an earlier (darker) ramp position than a dimmer one |
| `ImageToAscii.Endpoints` | app.py:27-30 | black (0) maps to index 0, `'@'`; white (255) maps to the last index, `'!'` |
| `ImageToAscii.RampExtremes` | app.py:27-31 | index 0 holds exactly the pixels 0..23; the last index holds pure white (255) and nothing else |
| `ImageToAscii.EveryRampCharReached` | app.py:27-31 | every one of the twelve ramp positions is produced by some pixel value |
| `ImageToAscii.RenderRow` | app.py:30-31 | a row renders to a string of the same length whose j-th character is the ramp character of pixel j |
| `ImageToAscii.RenderRows` | app.py:29-32 | there is one rendered line per grid row, in row order, and line i is the rendering of row i |
| `ImageToAscii.Render` | app.py:29-34 | a grid with zero rows renders to the empty string |
| `ImageToAscii.RenderAlphabet` | app.py:29-32 | every character of the output is either a newline or a ramp character |
| `ImageToAscii.RenderLines` | app.py:29-32 | for a grid with at least one row, splitting the output on newlines gives one line per row, in order; line i is as long as row i, and its j-th character is the ramp character of pixel (i, j) |
| `ImageToAscii.RenderNewlineCount` | app.py:29 | the output of a grid with at least one row contains exactly rows - 1 newlines |
| `ImageToAscii.RenderNoTrailingNewline` | app.py:29-32 | when the last row has pixels, the output's last character is not a newline |
| `ImageToAscii.RenderLength` | app.py:29-32 | a rectangular grid of h rows of width w renders to h*(w+1)-1 characters |
| `ImageToAscii.UniformGrid` | app.py:29-32 | an image of one luminance renders every cell as that luminance's character: all `'@'` for black and all `'!'` for white |
| `Text.JoinLines` | app.py:29 | joining no lines gives the empty string; joining n > 0 lines gives a string of total length plus n - 1 separators |
| `Text.SplitJoin` | app.py:29 | for at least one line and no line containing a newline, splitting the joined string on newlines gives the lines back |
| `Text.JoinSplit` | app.py:29 | joining the pieces of any string split on newlines gives the string back |
| `Text.JoinDrawnFrom` | app.py:29 | joining adds no character other than the newline separator |
| `Text.JoinEndsWithLastLine` | app.py:29 | the joined string ends with the last character of the last line, with no trailing separator |

## Left out

- Image decoding, resizing, grayscale conversion and contrast enhancement (app.py:14-24). These are calls into the imaging library, whose resampling and blending code is not part of this model and works in floating point. The grayscale grid is the model's input.
- The height computation `int(width * aspect_ratio * 0.55)` (app.py:15-18). This is floating-point arithmetic on the image dimensions. The number of rows is simply the length of the input grid, and a zero-row grid is covered by `Render`.
- The conversion of the image to a NumPy array (app.py:26). The grid is modelled directly as rows of integers in 0..255.
- Floating-point rounding in `(pixels / 255) * 11`. The model computes this value exactly. `QuotientAwayFromIntegers` shows why rounding cannot change the result, but IEEE-754 arithmetic itself is not modelled.
- The Flask route `home` (app.py:36-56): request handling, the two 400 responses, saving the upload to `static/uploaded_image.png`, printing and template rendering. All of it is HTTP and filesystem I/O.
- Creating the upload directory at import time (app.py:8-9) and starting the server (app.py:58-59). Both are process and I/O setup.
