# Fukuchiyama events bot: the post formatter and the calendar address

The bot reads the day view of the Fukuchiyama city event calendar and posts
one text per event to X. This project models the two pieces of
`get_events.py` that are deterministic:

- **The per-event post.** It takes the six fields found in one event box:
  title, category, comment, time, place and contact. A missing title becomes
  `タイトル不明`; any other missing field becomes the empty string. The post
  starts with the title line `📅 <title>`. Each non-empty optional field
  then follows, in a fixed order, with a fixed label:
  - `カテゴリ: ` for the category;
  - nothing for the comment;
  - `⏰ ` for the time;
  - `📍 ` for the place;
  - `📞 ` for the contact.

  Every line ends in a line break except the contact line. A text longer
  than 280 characters is cut to its first 277 characters followed by
  `...`.
- **The calendar address.** The fixed base
  `https://www.city.fukuchiyama.lg.jp/calendar/index.php?dsp=1`, followed by
  `&y=`, `&m=` and `&d=` with the date's parts in unpadded decimal.

Strings are sequences of Unicode code points, as in Python. `len` and
slicing count code points there too, and each label emoji (U+1F4C5, U+23F0,
U+1F4CD, U+1F4DE) is one code point.

Files:
- `wrappers.dfy` holds `Option`.
- `event_post.dfy` holds the formatter. `BuildText` is the imperative
  version: it has a mutable local `text`, appends to it under one `if` per
  field, then cuts it. `Body`/`Post` are the declarative version: the title
  line plus the rendering of `Present(f)`, the non-empty fields in `Order`.
  They are proved equal, and the properties are proved about the
  declarative version.
- `calendar_url.dfy` holds the address builder. It also has `ParseUrl`,
  proved to be its exact inverse.

This revision of `get_events.py` always opens the post with `📅`
(line 74) and has only the six fields above.

## Model

| member | source | states |
|---|---|---|
| `EventPost.WithDefaults` | get_events.py:56-71 | A missing title becomes `タイトル不明`; every other missing field becomes `""`; a field that was found keeps its text |
| `EventPost.Body` | get_events.py:74-84 | The text before the cut is the title line `📅 <title>\n` followed by the shown fields; it ends with `📞 <contact>` when the contact is non-empty and with a line break otherwise |
| `EventPost.Post` | get_events.py:74-88 | At most 280 characters; equal to the body exactly when the body fits; otherwise 280 long, the body's first 277 characters followed by `...`; a title line of at most 277 characters always survives whole |
| `EventPost.FormatEvent` | get_events.py:55-88 | The text for one event box: missing elements take their defaults, then the result is `Post` of those fields, and it is at most 280 characters long |
| `EventPost.BuildText` | get_events.py:73-88 | Building the text step by step (title line, one conditional `+=` per field, then the cut) gives exactly `Post(f)`, at most 280 characters |
| `EventPost.BuiltIsBody` | get_events.py:74-84 | The header with each field's optional segment appended in turn equals the declarative body: the title line plus the rendering of the non-empty fields in order |
| `EventPost.FormatEvents` | get_events.py:54-91 | The loop hands one text per event box to the posting call, in page order, each equal to that event's post and at most 280 characters |
| `EventPost.Truncate` | get_events.py:86-88 | Never longer than 280. A text of at most 280 is unchanged. A longer one becomes exactly 280 long: its first 277 characters, then `...` |
| `EventPost.TruncateFixedPoints` | get_events.py:87-88 | The cut changes a text if and only if it is longer than 280, and cutting twice is the same as cutting once |
| `EventPost.PostStartsWithTitle` | get_events.py:55-88 | The body starts with `📅 <title>\n`, where a missing title is `タイトル不明`. The whole title line survives the cut when it fits in 277 characters or when the body is not cut at all; otherwise its first 277 characters do |
| `EventPost.PresentIff` | get_events.py:75-84 | An optional field appears in the post if and only if it is non-empty, and every field shown carries its own value |
| `EventPost.SelectSound` | get_events.py:75-84 | Every shown entry is one of the fields considered, has that field's value, and is non-empty |
| `EventPost.SelectComplete` | get_events.py:75-84 | Every non-empty field considered is shown with its value |
| `EventPost.SelectOrdered` | get_events.py:74-84 | Showing fields keeps the order in which they are considered |
| `EventPost.PresentOrdered` | get_events.py:74-84 | The fields shown come in the order category, comment, time, place, contact |
| `EventPost.MissingFieldOmitted` | get_events.py:58-84 | An optional element that is missing from the event box leaves its field out of the post altogether |
| `EventPost.FoundFieldShown` | get_events.py:58-84 | An element that is found is shown, with its text, exactly when that text is non-empty |
| `EventPost.ContactLast` | get_events.py:83-84 | The contact entry can only be last, and the post ends with it exactly when the contact is non-empty |
| `EventPost.RenderLines` | get_events.py:75-84 | Split at line breaks, the rendered fields are one labelled line per field. A final empty piece follows unless the last field is the contact, which has no line break |
| `EventPost.BodyLines` | get_events.py:74-84 | For single-line fields, the post split at line breaks is: the title line, then one labelled line per non-empty field in order, then an empty piece exactly when the contact is empty |
| `CalendarUrl.Decimal` | get_events.py:27 | A date part is printed as a non-empty run of digits with no leading zero; it starts with `0` only for zero |
| `CalendarUrl.DecimalValue` | get_events.py:27 | The printed digits denote the number printed |
| `CalendarUrl.CanonicalIsDecimal` | get_events.py:27 | Any digit run without a leading zero is what `Decimal` prints for its value, so the unpadded form is unique |
| `CalendarUrl.Url` | get_events.py:27 | The address is the fixed base followed by `&y=`, `&m=`, `&d=` and the unpadded decimal parts, and reading the year, month and day back from it gives the date it was built from |
| `CalendarUrl.UrlParseInverse` | get_events.py:27 | A string parses to a date if and only if it is that date's address |
| `CalendarUrl.UrlInjective` | get_events.py:27 | Different dates give different addresses |

## Left out

- Fetching the calendar page with `requests` (get_events.py:29-30). This is network I/O.
- Parsing the HTML with BeautifulSoup CSS selectors (get_events.py:31-43, 55-71). This is a foreign library. The lookups' results are the `Scraped` input instead: `None` means the element is missing, `Some(text)` means it was found.
- Python's `.strip()`. Inputs are taken as already stripped. A title element that is present but has empty text stays empty, because the default applies only when the element is missing, as in the source.
- `datetime.date.today()` (get_events.py:26). The clock is not read; the date is a parameter of `CalendarUrl.Url`. The model takes any natural numbers, not only valid calendar dates.
- Client creation from `os.environ` credentials and the tweepy posting call (get_events.py:8-23, 51, 91). These are ambient state and a foreign call. `FormatEvents` returns the texts that would be posted.
- Console output and the early `exit()` calls when the day or its events are not found (get_events.py:33-48). These are console I/O and process control. With no event boxes, `FormatEvents` yields no texts.
- `EventPost.BodyLines`: the line-by-line reading is stated only for fields without line breaks. A comment with inner line breaks still produces the same text, but it spans more than one line.
