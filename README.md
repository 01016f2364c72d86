# Shadowmere helper bot: server extraction and reply, in Dafny

The helper bot reads chat messages and looks for Shadowsocks server links in them. It
registers each link with a Shadowmere service and answers with one line per link. This
project models the three parts of `main.go` that decide what the bot does:

- **Extractor** (`extractor.dfy`) models `findServers`. It applies the fixed pattern
  `ss://[A-Za-z\d+/]+@.+:\d+|ss://[A-Za-z\d+/]+` and collects every non-overlapping
  leftmost-first match, left to right.
  - `MatchAt` is the meaning of the pattern at one position, written out over indices:
    - the maximal class run after `ss://`;
    - then, if an `@` follows, the last colon that is at least two characters past the `@`,
      comes before the next line feed and is followed by a digit, and the digit run after it.
      `.+` needs at least one character between `@` and `:`, so `ss://A@:1` gives `ss://A`.
  - `MatchAtIsLeftmostFirst` proves that this index-based definition equals a declarative
    reading of the two alternatives (`BareAt`, `LongAt`) under the leftmost-first rule:
    the first alternative that matches at all wins. For this pattern, the greedy quantifiers
    then give that alternative's longest match.
  - `Spans` is the scan of `FindAllString`. It resumes after each match, or one character
    further where nothing matches. `FindServers` is the loop that builds the list.
- **Text** (`text.dfy`) holds the character classes the other modules share: digits
  and the line feed.
- **ExtractorExamples** (`extractor_examples.dfy`) holds short worked inputs of the kinds
  found in forwarded messages.
- **Registration** (`registration.dfy`) models how `addServer` turns the service's answer
  into a result. It looks at the HTTP status, and at the body only for a 400. It also
  models the texts of the resulting errors.
- **Reply** (`reply.dfy`) models the message handler:
  - the servers come from the text, or from the caption when the text has none;
  - one `Added server …` or `Error adding server […] with error: …` line per server;
  - the single notice when there is no server.

The result of each registration is I/O. It is given to the model as a function
`outcome`: `outcome(k)` is what the call for the k-th server of the message returned.

Where descriptions of the bot and the code disagree, the model follows the code:

- The character class has no `=`. Base64 padding therefore ends a bare link (the
  `=` is dropped). When padding sits between the token and `@host:port`, the result is the
  bare form up to the padding, not the long form. The expectation at `main_test.go:36` keeps
  `==@ak1394…:8080`, and `main.go:81` cannot produce that. The model does what `main.go:81`
  does (`BareTokenEndsAtFirstNonClass`, `PaddingDropped`).
- Nothing anchors the pattern on the left, so `vmess://…` yields `ss://…`
  (`MatchInsideVmess`).
- The host part is `.+`, so it runs across spaces to the last usable colon of the line
  (`TwoLongFormsOnOneLine`). A bare link is cut at the first character outside the class,
  whatever it is. There is no separate whitespace rule.
- The error line reads `Error adding server [<s>] with error: <err>`, not `Error: <err>`.
- The "no servers" notice is sent for every message, not only in private chats.

## Model

| member | source | states |
|---|---|---|
| Extractor.TokenRunEnd | main.go:81 | `[A-Za-z\d+/]+` runs from j to the first character outside the class (or the end): every character before it is in the class and the one at it is not |
| Extractor.LastPortColon | main.go:81 | the greedy `.+` before `:\d+`: the result is a colon followed by a digit inside the range with no such colon after it, or None when the range holds none |
| Extractor.MatchAt | main.go:81 | a match starts at i exactly when `ss://` followed by a class character is there, and a match always extends past the scheme and stays inside the input |
| Extractor.MatchAtIsLeftmostFirst | main.go:81 | MatchAt finds nothing exactly when no alternative of the pattern matches at i; otherwise its end is the leftmost-first one: the longest long-form match when the long form matches at all, else the longest bare match |
| Extractor.Spans | main.go:87 | the scan reports, in increasing non-overlapping order, spans inside the input each of which is the match MatchAt finds at its start |
| Extractor.FindServers | main.go:79-91 | the loop that appends match after match returns exactly the scan's list of matched texts (Extract) |
| Extractor.UncoveredPositionsDoNotMatch | main.go:87 | leftmost: a position no reported match covers is not a place where the pattern can start |
| Extractor.ExtractEmptyIff | main.go:80-90 | the result is empty if and only if no `ss://` in the input is followed by a class character |
| Extractor.ShapeFacts | main.go:81 | a text of either alternative's shape starts with `ss://` and has no line feed; its class run is followed by nothing or by `@` (so never by `=` padding); it ends in a digit when long; and it has exactly one of the two shapes |
| Extractor.ExtractElements | main.go:87-89 | every server is the input text of its span, the spans come left to right without overlap, and each server matches one of the two alternatives in full |
| Extractor.ExtractedServerFacts | main.go:79-91 | every server returned starts with `ss://` and holds no line feed; its class run is followed by nothing or by `@` (so never by `=` padding); and a long-form server ends in a digit |
| Extractor.BareTokenEndsAtFirstNonClass | main.go:81 | a token followed by `=`, `#`, a space, a line feed or any other non-class character except `@` (or by nothing) is matched up to that character |
| Extractor.LongAtIsMatch | main.go:81 | a long-form match with a maximal digit run and no usable colon after its own on the line is the match reported |
| Extractor.LongFormDropsDecoration | main.go:81 | `ss://<run>@<host>:<port>` followed by decoration with no `:<digit>` on the line (fragment, path, nothing) is matched up to the last port digit |
| ExtractorExamples.DecoratedLongForm | main_test.go:31 | a `#` fragment after the port is dropped: `ss://XYZ@1.2.3.4:5001#L` gives `ss://XYZ@1.2.3.4:5001` |
| ExtractorExamples.PaddingDropped | main_test.go:35 | a bare link loses its `=` padding and fragment: `ss://QUJD=#L` gives `ss://QUJD` |
| ExtractorExamples.MatchInsideVmess | main.go:81 | no left anchor: `vmess://eyJ2` gives `ss://eyJ2` |
| ExtractorExamples.RepeatsKept | main.go:87-89 | repeated servers are all returned, in input order |
| ExtractorExamples.TwoLongFormsOnOneLine | main.go:81 | greedy `.+` joins two long forms on one line into a single server |
| ExtractorExamples.LongFormStaysOnItsLine | main.go:81 | a port on the next line is not used; the bare form is returned |
| ExtractorExamples.EmptyHostIsNoLongForm | main.go:81 | `.+` needs at least one character, so `ss://A@:1` gives the bare `ss://A` |
| ExtractorExamples.SlashKept | main.go:81 | `/` is in the class and stays in a bare server |
| ExtractorExamples.SchemeWithoutRunIgnored | main.go:81 | `ss://` not followed by a class character yields nothing |
| Registration.Classify | main.go:111-118 | success exactly for 201; "already imported" exactly for a 400 whose body contains the marker phrase; "request failed with the status" in every other case |
| Registration.BodyMattersOnlyForBadRequest | main.go:111-116 | for any status other than 400 the body has no influence on the result, and a failure carries the status |
| Registration.IntToDecimalRoundTrip | main.go:115 | `%d` of the status is a decimal text that reads back as the same integer |
| Registration.RequestFailedTextCarriesStatus | main.go:112-115 | the "request failed" text is the fixed prefix followed by the status in decimal, which parses back to the status, and differs from the "already imported" text |
| Registration.ServiceErrorTextsAreOneLine | main.go:112-115 | the two error texts `addServer` makes itself contain no line feed |
| Reply.CollectServers | main.go:50-53 | the servers of a message are those of its text, or those of its caption when the text has none |
| Reply.FallbackRule | main.go:50-53 | a text with a usable `ss://` alone decides; otherwise the caption decides; the list is empty exactly when neither has a usable `ss://` |
| Reply.AnswerMessage | main.go:50-67 | the reply is the notice when there is no server, and otherwise the concatenation, in server order, of one terminated line per server |
| Reply.ServerLineIsOneLine | main.go:59-61 | the line for a server holds no line feed when the server and the error text hold none |
| Reply.ReplyLinesSplit | main.go:55-63 | the built reply, split at line feeds, is exactly the list of server lines in server order (one per server, the k-th for the k-th server and its call's outcome), and it ends with a line feed |
| Reply.ReplyHasOneLinePerServer | main.go:50-66 | for any message: the notice when no server is found; otherwise, when no transport error text holds a line feed, exactly one `Added server …` / `Error adding server […] with error: …` line per extracted server, in extraction order |

## Left out

- Telegram I/O is outside the model: receiving updates, the "working on it" message and sending replies (main.go:23-48, 72-77). The reply is a returned string.
- The HTTP request itself is outside the model: building, sending and reading the body (main.go:93-110). Its status and body are parameters of `Classify`. Its errors are the opaque `Transport(message)`.
- Logging (main.go:47, 83) is left out.
- The `nil` result when the pattern fails to compile (main.go:82-85) is left out, because the pattern is a constant that compiles. `FindServers` always returns a list, possibly empty.
- Text is a sequence of code points, while Go scans UTF-8 bytes. For valid UTF-8 the matches are the same, because every pattern character is ASCII and `.` takes a whole code point. Invalid UTF-8 is not modelled.
- The response body is a string. `bytes.Contains` with the ASCII marker is substring search over it.
- Reply.AnswerMessage: the outcome of each `addServer` call is an input indexed by the call's position, not computed. A repeated server may therefore get a different outcome on its second call, as it can in the real program.
- Reply.ReplyHasOneLinePerServer: assumes transport error texts hold no line feed, because those texts come from the HTTP library and are not part of this model.
