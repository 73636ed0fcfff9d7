# Seminar generator: request assembly

A model of the request-assembly code of a small Flask app that writes a
school seminar on a theme. When the form is posted, `index` in `app.py` does
four things:

- it splits the multi-line `integrantes` field into member names;
- for each of the `members` parts it builds the subtopic label
  `"<theme> - Parte <n> (Aluno <n>)"`, asks a remote language model for a
  text on it (`generate_content`) and picks a placeholder picture for it
  (`generate_image`);
- it asks the model once more for a conclusion on the theme;
- it hands everything to a template.

The model is split into these modules:

- `Outcomes` (`outcomes.dfy`): `Option` for the missing form field and
  `Result` for a request that raises.
- `Text` (`text.dfy`): the Python string operations the code relies on.
  These are `str.isspace` and `strip`, `split('\n')` with its inverse `join`,
  `lower`, the substring test `in`, and `str(n)` with its inverse.
- `Generation` (`generation.dfy`): the prompt template, the fixed request
  parameters and `generate_content`. The remote service is the parameter
  `client: Request -> Reply`. Its answer is either the completion's choices
  or a raised API error. Nothing is assumed about which answer comes back.
  As a function, `client` answers equal requests equally. That is no
  restriction for one request to `index`: its calls to `generate_content`
  are all on different topics, and different topics make different
  requests (`Seminar.ExpectedCallsDistinct`, `Generation.ChatRequestShape`).
- `Images` (`images.dfy`): `generate_image`. It searches an ordered keyword
  table, case-insensitively, with a generic fallback.
- `Seminar` (`seminar.dfy`): the name parse, the subtopic labels, and
  `Index`. `Index` is the POST branch of `index`. It is an imperative method
  whose loop builds the three parallel lists. Besides the template arguments
  it returns `calls`, the topics handed to `generate_content` in call order.
  This is how call counts and call order are stated.

Modelling choices:

- Lower-casing covers ASCII `A`-`Z` and the Latin-1 capitals U+00C0..U+00DE
  except U+00D7. Each of these maps 32 code points up, as Python's
  `str.lower` does. Every other character is left unchanged. This covers
  every letter in the keyword table (`ç`, `ã`, `ú`) and their capitals.
- Whitespace for `strip` is the full set of characters Python's
  `str.isspace` accepts: ASCII TAB, LF, VT, FF, CR, U+001C..U+001F, space,
  NEL, NBSP and the Unicode space separators.
- An exception raised by `generate_content` ends the request in the
  source. `Index` returns it as `Err`: no page, and the calls made so far.
  An exception comes either from the client or from `choices[0]` on an
  empty list.

Behaviour of `app.py` that the model keeps as it is:

- `members <= 0` is accepted. The loop runs zero times, and the conclusion
  is still generated.
- The conclusion is asked for with the same prompt template as the parts,
  on the topic `"Conclusão geral sobre <theme>"`.
- Each generated text goes into the page exactly as the service returned it.
- The number of parsed names is not tied to `members`. A part's label uses
  the ordinal `n` twice and never a member's name.

## Model

| member | source | states |
|---|---|---|
| Text.StripLeft | app.py:47 | the result is the longest suffix of the input that does not start with whitespace; everything cut off is whitespace |
| Text.StripRight | app.py:47 | the result is the longest prefix of the input that does not end with whitespace; everything cut off is whitespace |
| Text.Strip | app.py:47 | `strip()` yields a window of the input with only whitespace outside it, and a non-empty result has no whitespace at either end |
| Text.StripEmptyIff | app.py:47 | the filter `if nome.strip()` drops a line exactly when every character of it is whitespace |
| Text.StripTrimmed | app.py:47 | a string with no whitespace at either end is its own strip |
| Text.StripIdempotent | app.py:47 | stripping twice is stripping once |
| Text.Split | app.py:47 | `split('\n')` yields at least one piece, and no piece contains the separator |
| Text.SplitAround | app.py:47 | splitting `a + "\n" + b` gives the pieces of `a` followed by the pieces of `b` |
| Text.SplitNoSeparator | app.py:47 | a line without a line break splits into just itself |
| Text.JoinSplit | app.py:47 | joining the pieces of a split with the separator gives back the original text |
| Text.SplitJoin | app.py:47 | splitting the join of separator-free pieces gives back the pieces |
| Text.LowerChar | app.py:34 | a capital (ASCII `A`-`Z`, or Latin-1 U+00C0..U+00DE other than U+00D7) moves exactly 32 code points up and is no longer a capital; any other character is left alone |
| Text.Lower | app.py:34 | `lower()` keeps the length and maps every character through the case mapping |
| Text.LowerFixedIff | app.py:34 | `lower()` leaves no capital behind, and it changes nothing exactly when the string has no capital |
| Text.LowerIdempotent | app.py:34 | lower-casing twice is lower-casing once |
| Text.ContainsIff | app.py:34 | the substring test `key in topic` holds exactly when the key occurs at some position of the topic |
| Text.ContainsWitness | app.py:34 | if the substring test holds, there is a position where the key occurs |
| Text.OccursContains | app.py:34 | an occurrence at any position makes the substring test hold |
| Text.Contains | app.py:34 | the `in` test on strings; its meaning, an occurrence at some position, is stated by `Text.ContainsIff` |
| Text.IsSpace | app.py:47 | the characters `str.isspace` accepts; `Text.StripEmptyIff` states that `strip` empties exactly the strings made only of them |
| Text.Join | app.py:47 | `'\n'.join`, the inverse of `split('\n')`, as `Text.JoinSplit` and `Text.SplitJoin` state |
| Text.CountCharAppend | app.py:54-62 | the occurrences of a character in a concatenation add up |
| Text.CountAbsent | app.py:54-62 | a character that does not occur has count zero |
| Text.NatToString | app.py:54 | `str(n)` is a non-empty string of decimal digits with no leading zero |
| Text.NatToStringRoundTrip | app.py:54 | reading the numeral back gives the number |
| Text.NatToStringInjective | app.py:54 | two numbers have the same numeral exactly when they are equal |
| Generation.Prompt | app.py:15 | the prompt is the fixed prefix, then the topic verbatim, then the fixed suffix |
| Generation.PromptRoundTrip | app.py:15 | the topic can be read back from its prompt |
| Generation.TopicOfSound | app.py:15 | any text the reader accepts is the prompt of the topic it reads, so the template is injective |
| Generation.ChatRequest | app.py:16-21 | the request of one call; its fixed parameters, its single user message and its injectivity in the topic are stated by `Generation.ChatRequestShape` |
| Generation.ChatRequestShape | app.py:16-21 | every request uses model `llama3-8b-8192`, `max_tokens` 500 and temperature 0.7, with one user message holding the topic's prompt; distinct topics give distinct requests |
| Generation.GenerateContent | app.py:14-22 | the call succeeds exactly when the service returns at least one choice, and then yields the first choice's text unmodified; an error raised by the service is passed on, and an empty list of choices is the `NoChoices` error of `choices[0]` |
| Images.GenerateImage | app.py:25-36 | the picture is always one of the five fixed URLs |
| Images.Matches | app.py:34 | `key.lower() in topic.lower()`; `Images.SearchCaseInsensitive` states that only the lower-cased topic matters |
| Images.Search | app.py:33-36 | the `for key in images` loop; `Images.SearchFirstMatchIff` and `Images.SearchGenericIff` state that it returns the first matching entry's URL, or the generic one when none matches |
| Images.SearchResultIn | app.py:33-36 | the table search returns the URL of some table entry or the generic URL |
| Images.SearchFirstMatchIff | app.py:33-35 | for a table with distinct URLs, entry `i`'s URL is returned exactly when entry `i` is the first entry whose key matches |
| Images.SearchGenericIff | app.py:33-36 | for a table without the generic URL, the generic URL is returned exactly when no key matches |
| Images.ImageGenericIff | app.py:27-36 | `generate_image` returns the generic picture exactly when no key occurs in the lower-cased topic |
| Images.ImageFirstMatchIff | app.py:27-35 | `generate_image` returns key `i`'s URL exactly when key `i` is the first key in table order that occurs in the lower-cased topic |
| Images.SearchCaseInsensitive | app.py:33-35 | two topics with the same lower-case form get the same table result |
| Images.ImageCaseInsensitive | app.py:34 | the picture depends only on the lower-cased topic |
| Images.TableKeysLower | app.py:27-32 | the keys of the table `Images.Table` are already in lower case, so `key.lower()` is the key |
| Images.TableDistinctUrls | app.py:27-32 | the four URLs of `Images.Table` are pairwise distinct |
| Images.ImagePriorityExample | app.py:27-35 | a topic naming both "redes sociais" and "saúde", with capitals, gets the "redes sociais" picture, which comes first in the table |
| Outcomes.Option.GetOr | app.py:45 | `request.form.get('integrantes', '')`: the field's value when it is present, the empty string otherwise |
| Seminar.Names | app.py:47 | the list comprehension over the lines; `Seminar.NamesTrimmed`, `Seminar.NamesMembership` and `Seminar.NamesAppend` state what it keeps and in which order |
| Seminar.ParseMembers | app.py:45-47 | the whole name parse; `Seminar.ParsedNamesAreTrimmed`, `Seminar.ParseMembersLines` and `Seminar.ParseJoinedNames` state its properties |
| Seminar.NamesTrimmed | app.py:47 | every name the comprehension keeps is non-empty with no whitespace at either end, and there are no more names than lines |
| Seminar.ParsedNamesAreTrimmed | app.py:45-47 | every parsed member name is non-empty and is its own strip, so it has no leading or trailing whitespace (a CR from CRLF input included); there are never more names than lines |
| Seminar.NamesAppend | app.py:47 | the names of two consecutive groups of lines are the names of the first group followed by those of the second |
| Seminar.ParseMembersLines | app.py:45-47 | parsing `a + "\n" + b` gives the names of `a` followed by the names of `b`, so the input order is kept |
| Seminar.ParseMembersOneLine | app.py:47 | one line gives its stripped text, or nothing when it is blank |
| Seminar.ParseMembersEmpty | app.py:45-47 | a missing or empty `integrantes` field gives no names |
| Seminar.NamesOfTrimmed | app.py:47 | lines that are already trimmed and non-empty are kept unchanged and in order |
| Seminar.ParseJoinedNames | app.py:45-47 | writing trimmed names one per line and parsing the text gives the same names back, in order |
| Seminar.ParseCrLine | app.py:47 | a trimmed name followed by the CR that CRLF input leaves parses to the name alone |
| Seminar.NamesMembership | app.py:47 | a string is a parsed name exactly when it is non-empty and is the strip of some line |
| Seminar.SubtopicLabel | app.py:54 | the label of part `n`; `Seminar.SubtopicLabelInjective` states that it determines `n` |
| Seminar.ConclusionTopic | app.py:62 | the conclusion's topic; `Seminar.ConclusionNotALabel` states that it is never a part's label |
| Seminar.LeadingDigitsOfNumeral | app.py:54 | in a label, the numeral is read back up to the space that follows it |
| Seminar.SubtopicLabelInjective | app.py:54 | two labels of one theme are equal exactly when their ordinals are equal |
| Seminar.SubtopicLabelExample | app.py:54 | part 3 of "Fotossíntese" is labelled "Fotossíntese - Parte 3 (Aluno 3)" |
| Seminar.ExpectedCalls | app.py:53-62 | a request that raises nothing calls `generate_content` `max(members, 0) + 1` times: on the labels with ordinals 1, 2, … in order, then on `"Conclusão geral sobre " + theme` |
| Seminar.SubtopicLabelsDistinct | app.py:53-54 | the subtopic labels of one request are pairwise distinct |
| Seminar.ConclusionNotALabel | app.py:54-62 | the conclusion topic of a theme is not the label of any part of that theme |
| Seminar.ExpectedCallsDistinct | app.py:53-62 | the topics of one request's calls to `generate_content` are pairwise distinct |
| Seminar.SectionsExtend | app.py:53-60 | appending the next label, the text generated for it and its picture keeps the three lists aligned |
| Seminar.BuildSections | app.py:53-60 | the loop calls `generate_content` on the labels with ordinals 1, 2, … in order, at most `n` times. When no call fails it makes exactly `n` calls and the three lists are aligned: item `i` has the label with ordinal `i+1`, its generated text and its picture. When a call fails, it is the last call made, its error is returned, and every earlier call succeeded |
| Seminar.Index | app.py:40-71 | the calls made are a non-empty prefix of the expected calls. Every call before the last succeeded. The request succeeds exactly when all expected calls succeed, and otherwise returns the error of the last call made. On success the three lists all have length `max(members, 0)`. Item `i` has the label with ordinal `i+1`, the generated text for that label and the picture for that label. The conclusion is the text generated for the conclusion topic. Title and theme pass through, and the names are the parse of the field (empty when it is missing) |

## Left out

- Flask routing, the GET branch, reading `title`, `theme` and `members` from the form, and the `int(...)` conversion failing. `Index` takes the parsed form as a `Form` value.
- The Groq client and the network call are not modelled. The service is the opaque parameter `client`. Retries, timeouts and concurrency do not exist in the source.
- `render_template`, the jinja environment, `download_pdf` with `pdfkit` and `send_file`, and the server start-up. These are foreign libraries and I/O. `Index` returns the template arguments as a `Page`.
- Text.Lower, Text.LowerChar: map only the ASCII and Latin-1 capitals. Other characters are left unchanged. Python also lower-cases other scripts, for example U+0391 to U+03B1. A topic written in such characters is therefore compared differently. This cannot change which picture a topic gets. The characters from outside ASCII and Latin-1 that Python lowers into that range include U+0130, which becomes `i` followed by U+0307, U+212A, which becomes `k`, U+212B, which becomes `å`, and U+0178, which becomes `ÿ`. Of these letters only `i` occurs in a key. Every `i` in a key is followed by another letter of that key, so the U+0307 breaks the match.
- The message content of a completion is modelled as a string. A service answer whose content is `None` is not modelled.
