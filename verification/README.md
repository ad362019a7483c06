# Invitation mailer: a Dafny model of its self-contained rules

The repository is a set of scripts for a college club: they read recipients
from a spreadsheet, personalise a congratulations image with a recipient's
name, and send HTML e-mails over SMTP. Almost all of it is calls into
openpyxl, PIL and smtplib. This project models the parts that are plain
logic, and proves what they guarantee:

- **Recipient loader** (`read_recipients_from_excel`), after the workbook has
  been read. The header row is scanned for columns whose lower-cased text
  contains "email" or "name". An `elif` means a header holding both words
  counts as an email header, and the last match wins. Each data row then
  yields at most one `(email, name)` record: the email is stripped and must
  not be empty, and the name falls back to "Volunteer" (module `Recipients`,
  file `recipients.dfy`).
- **Output file name** (`generate_invitation_image`). The name is filtered
  to letters, digits, space, `_` and `-`, then stripped. It falls back to
  "Guest" and becomes `Invitation_<safe>.png`. The module also models the
  function's outcome: no file when the template is missing or when no font
  was measured (module `Invitation`, file `invitation.dfy`).
- **Name patch** (the ribbon tiling loop and the font-size search). These
  appear in `create_sample_image` and again, line for line, in
  `generate_invitation_image` (invitation/send_invitations.py:325-380). The
  model covers both (module `Ribbon`, file `ribbon.dfy`).
- **Dispatch** (`send_invitation_emails`). A pre-flight login gates the run.
  Each recipient is then sent to once, in order, and the results are split
  into a success list and a failure list (module `Dispatch`, file
  `dispatch.dfy`).

Supporting modules: `Strings` (`strings.dfy`) holds Python's `str.isspace`,
`strip`, `lower` and `in`. `Optional` (`option.dfy`) holds the `Option` type.

Modelling choices:

- A cell is `Empty | Text(s)`. Python truthiness makes `Empty` and
  `Text("")` false.
- The header scan's sentinel `name_idx = -1` becomes `None`.
- Things the scripts get from the outside world become parameters:
  - whether the template file exists;
  - the integer pixel bounds of the patch;
  - whether the TrueType font opens;
  - the text-width measure, as a function from font size to pixels;
  - the pre-flight result;
  - the per-recipient send, as an oracle taking the 1-based position and
    the recipient. Its result dictionary becomes a record: whether the
    status is "success", and the error text if there is one.
- The code is followed where it is more specific than its description:
  - The font search never tries `min_font_size` itself. Every size it
    tries is strictly above the minimum.
  - When `start <= min_font_size`, no font is measured and drawing fails.
  - When the TrueType font does not open, the default-font branch leaves
    the loop before measuring. The text width is then unbound, so this
    branch also ends in the error handler, not in text drawn with the
    default font.

## Model

| member | source | states |
|---|---|---|
| Strings.Strip | invitation/send_invitations.py:225 | `str.strip()`: the result has no whitespace at either end, and it is empty exactly when the input is all whitespace |
| Strings.StripBounds | invitation/send_invitations.py:225 | `strip()` removes only whitespace: the result is a contiguous slice `s[a..b]` of the input, and every character before `a` and from `b` on is whitespace |
| Strings.Lower | invitation/send_invitations.py:216 | `str.lower()` for ASCII: the same length, each character lowered on its own, each capital `A`-`Z` becoming its own lowercase letter and every other character unchanged |
| Strings.LowerIdempotent | invitation/send_invitations.py:216 | lowering a lowered text changes nothing, and a lowered text holds no capital |
| Strings.ContainsAt | invitation/send_invitations.py:217-219 | `needle in s` (the predicate `Strings.Contains`) holds exactly when `needle` occurs in `s` starting at some position |
| Recipients.ScanHeader | invitation/send_invitations.py:209-220 | for an empty header the email column stays at 0 and there is no name column; otherwise the columns found lie inside the header |
| Recipients.ScanFindsEmailColumn | invitation/send_invitations.py:209-220 | the email column is the last header containing "email" once lower-cased, or 0 if there is none |
| Recipients.ScanFindsNameColumn | invitation/send_invitations.py:209-220 | the name column is the last header containing "name" but not "email" (the `elif`), or absent (-1) if there is none |
| Recipients.ColumnsAreUnique | invitation/send_invitations.py:210-220 | the last-match descriptions of the two columns pin down one column each, so they fully determine the header scan |
| Recipients.ExtractRow | invitation/send_invitations.py:224-231 | a row yields a record exactly when it reaches the email column and the cell there is truthy and not all whitespace; the stored email is the stripped cell text, non-empty with no surrounding whitespace; the name is the stripped name cell if there is a name column, the row reaches it and the cell is truthy, and "Volunteer" otherwise |
| Recipients.ExtractAll | invitation/send_invitations.py:223-231 | at most one record per data row; every stored email is non-empty and stripped |
| Recipients.ReadRecipients | invitation/send_invitations.py:200-234 | the loader after the workbook is read: no more records than data rows, each with a non-empty stripped email |
| Recipients.AcceptedRows | invitation/send_invitations.py:223-231 | the positions of the rows that pass the filter, strictly increasing and inside the sheet |
| Recipients.AcceptedRowsExact | invitation/send_invitations.py:223-231 | a row position is listed exactly when that row reaches the email column with a truthy, not all-whitespace cell |
| Recipients.ExtractAllFollowsAcceptedRows | invitation/send_invitations.py:223-231 | the output is, in order, the records of exactly the accepted rows: row order is kept, no qualifying row is skipped, and no row gives two records |
| Recipients.HeaderWouldPassRowFilter | invitation/send_invitations.py:209-224 | whenever some header mentions "email", the header row itself passes the row filter (its email cell is truthy and not all whitespace), so only starting the data at row 2 keeps it out of the recipients |
| Recipients.BlankNameIsNotDefaulted | invitation/send_invitations.py:226-228 | a name cell holding only whitespace is truthy, so the name becomes "" rather than "Volunteer" |
| Recipients.ExampleHeaderColumns | invitation/send_invitations.py:209-220 | the header ("Name", "Email") puts the email column at 1 and the name column at 0 |
| Recipients.LoaderExample | invitation/send_invitations.py:209-231 | header ("Name", "Email") with rows ("A", "a@x.com"), ("", ""), ("B", "") gives exactly one recipient, ("a@x.com", "A") |
| Invitation.KeepSafe | invitation/send_invitations.py:289 | the filter keeps only letters, digits, space, `_` and `-`, and never lengthens the name |
| Invitation.SafeName | invitation/send_invitations.py:289-291 | the sanitised name is never empty and holds only letters, digits, spaces, `_` and `-`; it has no space at either end; it keeps every letter, digit, `_` and `-` of the name, in order; it is "Guest" when the name has none of them |
| Invitation.KeepSafeDropsUnsafe | invitation/send_invitations.py:289 | the filter deletes exactly the unsafe characters: removing one unsafe character from anywhere in the name leaves the filtered text unchanged |
| Invitation.SafeNameIgnoresUnsafe | invitation/send_invitations.py:289-291 | an unsafe character anywhere in the name has no effect on the sanitised name |
| Invitation.SafeNameOfSafe | invitation/send_invitations.py:289-291 | a name of safe characters that is not all spaces is only stripped, so its inner spaces are kept; with the previous row this fixes the sanitised name of every name |
| Invitation.ExampleInnerSpaceKept | invitation/send_invitations.py:289-292 | "A B" keeps its inner space, giving the file `Invitation_A B.png` |
| Invitation.SafeNameIdempotent | invitation/send_invitations.py:289-291 | sanitising an already sanitised name returns it unchanged |
| Invitation.OutputFilename | invitation/send_invitations.py:289-292 | the file name starts with "Invitation_" and ends with ".png"; the sanitised name lies between them; before the extension there are only letters, digits, spaces, `_` and `-`, so no path separator and no other dot |
| Invitation.FilenameCollision | invitation/send_invitations.py:289-292 | two names produce the same output file exactly when they sanitise to the same name |
| Invitation.GenerateInvitationImage | invitation/send_invitations.py:279-398 | an image file is produced exactly when the template exists, the font opens and the start size is above the minimum; its name is the sanitised output file name; every other path returns nothing |
| Ribbon.TileRibbon | invitation/create_sample_image.py:31-42 | the loop stops whenever the slice width is positive or the target is empty; the pastes lie end to end and cover `[target_x_start, target_x_end)` exactly; each paste is positive and at most the slice width; all but the last are exactly the slice width; an empty target gives no pastes |
| Ribbon.PasteOffsets | invitation/create_sample_image.py:32-42 | the k-th paste starts at `target_x_start + k * src_width`, since the cursor advances by the full slice width every time |
| Ribbon.PasteCount | invitation/create_sample_image.py:32-42 | for a non-empty target, the number of pastes n satisfies `(n-1)*src_width < target width <= n*src_width`, i.e. it is the target width divided by the slice width, rounded up |
| Ribbon.PastesAscend | invitation/create_sample_image.py:32-42 | each paste starts at or after the end of every earlier one |
| Ribbon.EveryColumnPastedOnce | invitation/create_sample_image.py:32-42 | a pixel column lies in some paste exactly when it is inside the target, and never in two pastes |
| Ribbon.FitFont | invitation/create_sample_image.py:70-87 | with a font that opens and `start > min`, the sizes tried are `start, start-2, ...`, all above the minimum; every size before the last was too wide; the kept font is the last size with its measured width, which either fits or is the smallest size above the minimum (so it may overflow, with no error); otherwise nothing is measured |
| Ribbon.FitSearchUnique | invitation/create_sample_image.py:70-87 | the description of the search determines both the kept font and the sizes tried |
| Ribbon.StopsNoLaterThan | invitation/create_sample_image.py:70-87 | a text at least as wide at every size makes the search try at least as many sizes |
| Ribbon.SearchPassedOver | invitation/create_sample_image.py:84-87 | a size the search moved past was too wide, and the next size is two smaller and still above the minimum |
| Ribbon.WiderTextNeverLargerFont | invitation/create_sample_image.py:70-87 | the search is monotonic: a text at least as wide at every size never gets a larger font |
| Dispatch.ErrorText | invitation/send_invitations.py:636 | a failure's recorded error is its error text, or "Unknown error" when it carries none |
| Dispatch.SendAll | invitation/send_invitations.py:626-637 | every recipient's result goes into one of the two lists, so their lengths add up to the number of recipients |
| Dispatch.SendAllCallsEachOnce | invitation/send_invitations.py:631-632 | the loop calls `send_single_email` exactly once per recipient, in input order, with its 1-based position |
| Dispatch.SendInvitations | invitation/send_invitations.py:597-646 | a failed pre-flight connect or login returns `(None, None)` and makes no call; otherwise the returned lists and the calls are those of the send loop, and the lists cover every recipient |
| Dispatch.PreflightFailureIgnoresSender | invitation/send_invitations.py:605-618 | after a failed pre-flight the result is `(None, None)` whatever the per-recipient send would do: it is never consulted |
| Dispatch.ConnectedRunReportsEveryRecipient | invitation/send_invitations.py:626-646 | a connected dispatch calls the send once per recipient, in order, and returns exactly the successful addresses and exactly the failed addresses with their errors, each in input order |
| Dispatch.SentPositions | invitation/send_invitations.py:631-634 | the positions whose send succeeded, strictly increasing and inside the recipient list |
| Dispatch.SentPositionsExact | invitation/send_invitations.py:631-634 | a position is listed exactly when the send to that recipient reported status "success" |
| Dispatch.FailedPositions | invitation/send_invitations.py:631-636 | the positions whose send failed, strictly increasing and inside the recipient list |
| Dispatch.FailedPositionsExact | invitation/send_invitations.py:631-636 | a position is listed exactly when the send to that recipient did not report status "success" |
| Dispatch.SuccessesInOrder | invitation/send_invitations.py:631-634 | the success list is the addresses of exactly the recipients whose send succeeded, in input order |
| Dispatch.FailuresInOrder | invitation/send_invitations.py:631-636 | the failure list is the address and error text of exactly the recipients whose send failed, in input order |
| Dispatch.FailureDoesNotStopLaterSends | invitation/send_invitations.py:631-637 | a failed send does not stop the loop: a later recipient whose send succeeds is in the success list |

## Left out

- Opening, iterating and closing the workbook (openpyxl), together with the `FileNotFoundError` and generic exception handlers that return `None`: these are library I/O. The loader is modelled from the header row and the data rows onward.
- Cell values other than text and blank (numbers, dates, booleans): `str()` of such values is not modelled. Python treats a numeric zero as falsy, but its text "0" is truthy.
- Lowering and `isalnum` are modelled for ASCII only, because Unicode case and category tables are not modelled. `strip()` uses Python's full whitespace set.
- SMTP connect, STARTTLS, login, send and quit, MIME assembly, logo loading and the 2-second sleep are network I/O and library calls. Instead, the pre-flight result and each send are parameters.
- The HTML templates are literal text with the name interpolated.
- `get_smtp_config` (hard-coded server settings and a prompt), `main`'s prompts, previews and exit codes: these are console I/O.
- Image pixels are library calls: crop, paste, `textbbox`/`textsize`, drawing the text. So are the Windows font-path probing and the float arithmetic that turns image-size fractions into pixel bounds, and the float centring of the text. Pixel bounds and the width measure are parameters. `name.upper()` is folded into the measure.
- Ribbon.TileRibbon: requires a positive slice width or an empty target. The source loop never ends when the slice width is 0 and the target is not empty: `int(w*0.28) - int(w*0.20)` is 0 while `int(w*0.38) < int(w*0.62)` for some very narrow templates (templates 2, 5, 6, 7 or 10 pixels wide). That hang is not modelled.
- Invitation.GenerateInvitationImage: has the same precondition as the tiling loop, so the hang on a very narrow template is not modelled here either.
- Ribbon.FitFont: whether the TrueType file opens does not depend on the size, so a font that opens at one size and fails at a later one is not modelled.
- Invitation.GenerateInvitationImage: returns the file name, not the joined path. `os.makedirs` and `os.path.join` with the output directory are not modelled.
- create_template.py, invitation/create_sample_excel.py and invitation/update_recipients.py write literal sample rows. crop_logo.py is a single crop call. None of these are modelled.
