# Redacting sensitive fields in log messages

This project models `filter_datum`, the log-redaction function of the
personal-data logging module. The function takes four inputs:

- a list of field names;
- a redaction string;
- a log message made of `key=value` pairs;
- a separator character.

For every field, in order, it runs one regular-expression substitution over
the message. The pattern is `(FIELD)=[^SEP]*` and the replacement template is
`\1=REDACTION`. The value that follows each `FIELD=` is replaced with the
redaction, up to the next separator or the end of the message.

The model has two modules:

- `Redactor` (`redactor.dfy`) models one substitution pass, `RedactField`.
  This is a left-to-right scanner with Python's non-overlapping, leftmost
  matching: at each position it either matches `FIELD=` plus the longest run
  of non-separator characters, or copies one character. An independent
  reference definition cuts the message into pieces, which are either single
  kept characters or matches. The lemmas show that the scanner agrees with
  that cut and that the cut is unique. They also establish these properties
  of a pass, each under the condition stated:
  - it is idempotent when the redaction holds no separator
    (`RedactFieldIdempotent`);
  - it keeps the number of separators when the redaction holds none
    (`RedactFieldKeepsSeparators`);
  - it leaves a message in which `FIELD=` does not occur unchanged
    (`RedactFieldNoKey`);
  - it distributes over a split at a separator when `FIELD=` holds no
    separator (`RedactFieldSplit`).

  Without these conditions the first and last properties fail. With field
  `a`, redaction `x;a` and separator `;`, one pass turns `a=1` into `a=x;a`,
  and a second pass gives `a=x;a;a` (`NotIdempotentWhenRedactionHoldsSeparator`).
  With field `b;c`, the pass over `b;c=1` gives `b;c=R`, but `b` and `;c=1`
  are each left unchanged (`NoSplitWhenKeyHoldsSeparator`).
- `FilteredLogger` (`filtered_logger.dfy`) models `filter_datum` itself. It
  has two parts:
  - `FilterDatum`, a method whose `for` loop over the fields is proved
    against the fold `Filtered`.
  - Lemmas about the fold: composition, unchanged messages, separator count,
    idempotence of the whole filter, and a theorem for messages written as
    `key=value;` pairs. The theorem says a pair's value is replaced exactly
    when some field is a suffix of its key. It holds when no `FIELD=` holds
    the separator, no key or value holds `=` or the separator, and the
    redaction holds neither the separator nor `=`.

  This part also holds a counterexample to whole-filter idempotence and a
  worked example.

**Regular expressions.** The model covers the configurations that
`LiteralConfiguration` admits:

- no field contains a regular-expression metacharacter, so each field is a
  plain literal;
- the separator has at most one character; the two that leave the class
  unterminated, `""` and `"\"`, are handled under **Errors**, and every other
  one gives a negated one-character class;
- the redaction contains no backslash, so the template has no escapes to
  expand.

**Errors.** With an empty separator or a backslash separator, the class is
`[^]` or `[^\]`, and Python's `re` rejects the pattern as an unterminated
character set. `FilterDatum` returns `Err(UnterminatedCharacterSet)` in that
case. The error is raised only when the first pattern is compiled, so with
no fields the message comes back unchanged whatever the separator is.

**Behaviour a reader might not expect (the model follows the code):**

- **Empty separator.** It is not rejected up front. It fails only as a
  regular-expression error when the first field is processed, and with no
  fields it is accepted.
- **Empty field name.** It is not rejected. The pattern `()=[^SEP]*` is
  valid (`Key("")` is `"="`). In each separator-delimited segment,
  everything after the first `=` is replaced. In `x=1=2;`, for instance, the
  second `=` lies inside the value the first match takes.
- **Matching inside a key.** Field names are not anchored to the start of a
  key. The field `e` also redacts `name=John` (`FieldMatchesInsideKey`). In
  general a value is redacted when some field is a suffix of its key
  (`FilteredPair`, `FilteredLine`, under the conditions stated there).
- **Idempotence.** Applying the filter twice can give a different result
  from applying it once when a field holds the separator. With fields
  `["b;c", "y"]`, redaction `ab` and separator `;`:
  - the message `y=Z;c=1` filters to `y=ab;c=1`;
  - filtering that again gives `y=ab;c=ab`.

  This is `NotIdempotentWhenFieldHoldsSeparator`. The later field `y` writes
  the `b` that completes a new `b;c=`. A single field is idempotent whatever
  it holds (`RedactFieldIdempotent` needs only a redaction without the
  separator). `FilteredIdempotent` proves idempotence of the whole filter
  when no `FIELD=` holds the separator and the redaction holds neither the
  separator nor `=`. The condition on `=` is sufficient for the proof; it is
  not known to be necessary.

## Model

| member | source | states |
|---|---|---|
| Redactor.RedactField | 0x00-personal_data/filtered_logger.py:24-25 | one `re.sub` pass of `(FIELD)=[^SEP]*` with template `\1=REDACTION`; it is specified by `RedactFieldByCut` and `CutUnique`, which equate it with the unique leftmost cut `Cut` rewritten match by match |
| Redactor.ValueLength | 0x00-personal_data/filtered_logger.py:24 | `[^SEP]*` matches a prefix with no separator that ends at a separator or at the end of the text |
| Redactor.RedactFieldHead | 0x00-personal_data/filtered_logger.py:24-25 | a pass maps the empty text to itself, keeps the first character of a non-empty text, and keeps a text that starts at a separator starting at one |
| Redactor.RedactFieldShort | 0x00-personal_data/filtered_logger.py:24-25 | a text shorter than `FIELD=` is left unchanged |
| Redactor.RedactFieldAtMatch | 0x00-personal_data/filtered_logger.py:24-25 | at `FIELD=` followed by a value with no separator, the pass writes `FIELD=` plus the redaction and continues after the value |
| Redactor.RedactFieldNoKey | 0x00-personal_data/filtered_logger.py:24-25 | a text in which `FIELD=` does not occur is left unchanged |
| Redactor.RedactFieldIdempotent | 0x00-personal_data/filtered_logger.py:24-25 | when the redaction holds no separator, a second pass with the same field changes nothing |
| Redactor.RedactFieldKeepsSeparators | 0x00-personal_data/filtered_logger.py:24-25 | when the redaction holds no separator, a pass keeps the number of separators |
| Redactor.Cut | 0x00-personal_data/filtered_logger.py:24 | every text has a cut into kept characters and leftmost, longest matches whose concatenation is the text |
| Redactor.RedactFieldByCut | 0x00-personal_data/filtered_logger.py:24-25 | the scanner's output is the cut with each match replaced by `FIELD=` plus the redaction and each kept character copied |
| Redactor.CutUnique | 0x00-personal_data/filtered_logger.py:24 | two leftmost cuts of the same text are equal, so the substitution is determined |
| Redactor.PieceInOutput | 0x00-personal_data/filtered_logger.py:24-25 | each piece of the cut appears in the output at its place, and a match is followed by a separator or the end |
| Redactor.RedactFieldSplit | 0x00-personal_data/filtered_logger.py:24-25 | when `FIELD=` holds no separator, a pass over `a + b`, with `b` starting at a separator, is the pass over `a` followed by the pass over `b` |
| Redactor.NotIdempotentWhenRedactionHoldsSeparator | 0x00-personal_data/filtered_logger.py:24-25 | with field `a`, redaction `x;a` and separator `;`, one pass turns `a=1` into `a=x;a` and a second into `a=x;a;a`: a pass is not idempotent when the redaction holds the separator |
| Redactor.NoSplitWhenKeyHoldsSeparator | 0x00-personal_data/filtered_logger.py:24-25 | with field `b;c`, the pass over `b;c=1` gives `b;c=R` while the passes over `b` and `;c=1` change nothing: a match reaches across a separator the key holds |
| Redactor.RedactFieldAfterSeparator | 0x00-personal_data/filtered_logger.py:24-25 | when `FIELD=` holds no separator, a leading separator is copied and the pass continues after it |
| Redactor.RedactFieldOnSegment | 0x00-personal_data/filtered_logger.py:24-25 | on a segment with no separator, the pass cuts the text at the end of the first `FIELD=` and appends the redaction, or leaves it unchanged |
| Redactor.KeyEndFirst | 0x00-personal_data/filtered_logger.py:24 | `KeyEnd` is the earliest position at which `FIELD=` ends, or none when it does not occur |
| Redactor.KeyEndTruncated | 0x00-personal_data/filtered_logger.py:24-25 | when the redaction holds no `=`, truncating and appending it keeps the first key end that lies before the cut and adds none |
| FilteredLogger.ClosesClass | 0x00-personal_data/filtered_logger.py:24 | the separator closes the class `[^SEP]` (one character, not a backslash); `FilterDatum`'s error ensures return `Err(UnterminatedCharacterSet)` exactly when it fails and there is a field |
| FilteredLogger.Filtered | 0x00-personal_data/filtered_logger.py:23-25 | the loop's result, one pass per field in list order; it is specified by `FilteredAppend` (composition over the list) and `FilteredLine` (per-pair redaction of a line) |
| FilteredLogger.FilterDatum | 0x00-personal_data/filtered_logger.py:8-26 | for a literal configuration (`LiteralConfiguration`): with no fields, returns the message; with a separator that leaves the class unterminated, returns the error; otherwise returns the fold of one pass per field, in list order |
| FilteredLogger.FilteredAppend | 0x00-personal_data/filtered_logger.py:23-25 | filtering with `first + second` is filtering with `first`, then with `second` |
| FilteredLogger.FilteredTwo | 0x00-personal_data/filtered_logger.py:23-25 | two fields give the second field's pass applied to the first field's output |
| FilteredLogger.FilteredNoKey | 0x00-personal_data/filtered_logger.py:23-26 | a message in which no `FIELD=` occurs is returned unchanged |
| FilteredLogger.FilteredKeepsSeparators | 0x00-personal_data/filtered_logger.py:23-26 | when the redaction holds no separator, the number of separators is unchanged |
| FilteredLogger.FilteredSplit | 0x00-personal_data/filtered_logger.py:23-26 | when no `FIELD=` holds the separator (`KeysWithoutSeparator`, which also rules out the separator `=`), the filter distributes over a split at a separator, so it works pair by pair |
| FilteredLogger.FilteredAfterSeparator | 0x00-personal_data/filtered_logger.py:23-26 | when no `FIELD=` holds the separator (`KeysWithoutSeparator`), a leading separator is kept and the rest is filtered |
| FilteredLogger.Earlier | 0x00-personal_data/filtered_logger.py:23-25 | a helper of `FilteredOnSegment`, not a line of the source by itself: the earlier of two key ends is one of them and no later than either, which is how `FirstEnd` picks where the combined passes cut a segment |
| FilteredLogger.FilteredOnSegment | 0x00-personal_data/filtered_logger.py:23-26 | on a segment with no separator, and with a redaction holding neither the separator nor `=`, the whole filter cuts at the earliest key end over all fields and appends the redaction |
| FilteredLogger.FirstEndTruncated | 0x00-personal_data/filtered_logger.py:23-25 | when the redaction holds no `=`, a segment cut at `c` and completed with the redaction keeps exactly the key ends, over all fields, at or before `c`, and gains none |
| FilteredLogger.SegmentIdempotent | 0x00-personal_data/filtered_logger.py:23-26 | on one segment with no separator, and with a redaction holding neither the separator nor `=`, filtering twice equals filtering once |
| FilteredLogger.FilteredIdempotent | 0x00-personal_data/filtered_logger.py:23-26 | when no `FIELD=` holds the separator (`KeysWithoutSeparator`) and the redaction holds neither the separator nor `=`, filtering twice equals filtering once |
| FilteredLogger.KeyEndInPair | 0x00-personal_data/filtered_logger.py:24 | in `key=value` where neither the key nor the value holds `=`, `FIELD=` ends right after the `=` exactly when the field is a suffix of the key, and nowhere otherwise |
| FilteredLogger.FirstEndInPair | 0x00-personal_data/filtered_logger.py:23-24 | in `key=value` where neither the key nor the value holds `=`, some field matches exactly when some field is a suffix of the key (`Sensitive`), and the match ends right after the `=` |
| FilteredLogger.FilteredPair | 0x00-personal_data/filtered_logger.py:23-26 | for a plain pair (`PlainPair`: key and value hold neither `=` nor the separator, and the separator is not `=`) and a redaction holding neither the separator nor `=`, the pair comes out with its value replaced by the redaction if some field is a suffix of the key, and unchanged otherwise |
| FilteredLogger.FilteredLine | 0x00-personal_data/filtered_logger.py:23-26 | when no `FIELD=` holds the separator, every pair is plain (`PlainPair`) and the redaction holds neither the separator nor `=`, a message of pairs, each followed by the separator, comes out as the same pairs, each redacted as `FilteredPair` states |
| FilteredLogger.NotIdempotentWhenFieldHoldsSeparator | 0x00-personal_data/filtered_logger.py:23-26 | with fields `b;c` and `y`, `y=Z;c=1` filters to `y=ab;c=1` and then to `y=ab;c=ab`: idempotence can fail when a field holds the separator |
| FilteredLogger.WorkedExample | 0x00-personal_data/filtered_logger.py:23-26 | fields `name`, `email`, `phone` turn `name=John Doe;email=john@example.com;phone=555-0100;` into `name=***;email=***;phone=***;` |
| FilteredLogger.FieldMatchesInsideKey | 0x00-personal_data/filtered_logger.py:24-25 | the field `e` redacts the value of the key `name`, since the pattern is not anchored to the start of a key |

## Left out

- `hash_password` in `0x00-personal_data/encrypt_password.py` is not part of this model. It calls bcrypt with a random salt, which is foreign code and randomness.
- The redacting log formatter, the logger factory (`get_logger`), the database connection and the `main` entry point of the personal-data project are not part of this model. They are not in `filtered_logger.py`, and they do only I/O around `filter_datum`.
- General regular-expression semantics: fields holding metacharacters (`.`, `|`, `(`, `*` and the like) and redactions holding backslash escapes are excluded by `LiteralConfiguration`. With such input, Python would interpret the pattern or template rather than use it literally.
- Separators longer than one character are excluded. They make `[^SEP]` a class of several characters, and a separator such as `a-z` would be read as a range.
- Python's other regular-expression compile errors are not modelled. Only the unterminated-class error, which the separators `""` and `"\"` provoke, is modelled.
- Text is a `seq<char>` with no Unicode normalisation or case folding. Python's `re` does neither by default, so nothing is lost.
