# llama-swap model configuration, modelled in Dafny

llama-swap is a proxy that starts and swaps model servers on demand. Its
configuration names a set of models. Each model has these parts:

- a launch command (`cmd`);
- a proxy target (`proxy`);
- request filters, whose `stripParams` directive lists the request parameters to remove;
- an optional `sendLoadingState` override of the global flag.

This project models how one model's configuration is resolved and what the
proxy asks of it:

- **Macros** (`macros.dfy`): `${name}` placeholders are replaced in one
  left-to-right pass from the configuration's macro table. Unknown names stay
  as written, and inserted values are not scanned again.
- **Loading** (`loader.dfy`): each raw entry becomes a `ModelConfig`. The
  macros are applied to `cmd` and to the strip-params directive. The legacy key
  `strip_params` feeds the same directive when `stripParams` is empty. The
  loading-state flag becomes the model's override, or the global default when
  there is none.
- **`Filters.SanitizedStripParams`** (`filters.dfy`): the directive is split at
  commas and each piece is trimmed. Empty pieces and `model` are dropped,
  repeats are removed, and the names come out in ascending order.
- **`SanitizedCommand`** (`command.dfy`): each backslash-newline continuation
  becomes a space. The text is then cut into words at spaces, tabs and line feeds, with single-
  and double-quoted parts kept inside their word. An unclosed quote is an error.
- **`IsRemoteModel`** (`remote.dfy`, on top of `url.dfy` and `address.dfy`):
  a model with a command is local. A model without one is remote unless the
  host of its proxy URL is `localhost`, an IPv4 address in 127.0.0.0/8, or the
  IPv6 loopback `::1` (also the IPv4-mapped loopback range written in hexadecimal, `::ffff:7f00:0` to `::ffff:7fff:ffff`). A proxy
  URL that does not parse counts as not loopback.
- **URL reading** (`url.dfy`): follows Go's `net/url` for the part that decides
  the host:
  - the scheme;
  - an opaque remainder after the scheme;
  - a colon in a first path segment when there is no scheme;
  - the `//` authority, with userinfo dropped;
  - a port that must be all digits;
  - `Hostname` stripping the port and the IPv6 brackets.
- **Address parsing** (`address.dfy`): follows Go's `netip.ParseAddr`:
  - IPv4: dotted quads with no leading zeros;
  - IPv6: one to four hexadecimal digits per group, and at most one `::`.

The implementing Go file is not part of this model. Only its tests,
`proxy/config/model_config_test.go`, are. The behaviour modelled is the
behaviour those tests assert, completed where they are silent by how the Go
standard library parses URLs and addresses. One comment in the test file
says that for `not-a-url` "hostname is not-a-url". Go's `url.Parse` reads that
text as a relative path with an empty host. The model does the same
(`ProxyUrl.ParseUrlNoHost`). Both readings give "remote", the value the test
asserts.

The stand-ins for the Go standard library have no rows of their own; their
behaviour is stated by the lemmas about them:

- `ProxyUrl.ParseUrl` and `ProxyUrl.Hostname` by `ProxyUrl.ParseUrlOfAuthority`,
  `ProxyUrl.HostnameOfName`, `ProxyUrl.HostnameOfBracketed` and
  `ProxyUrl.ParseUrlNoHost`;
- `Address.ParseIP` by the `Address` rows (round trips, the two full forms and
  the worked addresses);
- `Remote.IsLoopbackHost` by `Remote.RemoteOfHostName`, `Remote.RemoteOfBracketed`,
  `Remote.RemoteOfIPv4` and `Remote.RemoteOfIPv6`, which give the
  classification for each shape of host.

Every operation has a partner lemma, and the worked examples of the tests are
lemmas over the same functions:

- the tokenizer has a round trip over words and gaps;
- the IPv4 and IPv6 formatters have parse/format round trips;
- sanitizing is idempotent;
- substitution agrees with an expansion defined on segments;
- classification is stated for each shape of proxy target.

## Model

| member | source | states |
|---|---|---|
| Command.JoinContinuations | proxy/config/model_config_test.go:13-15 | the joined command holds no backslash-newline pair, and a non-empty command stays non-empty |
| Command.JoinContinuationsAt | proxy/config/model_config_test.go:13-15 | a backslash-newline becomes exactly one space, and the lines on either side are joined independently |
| Command.JoinContinuationsIdempotent | proxy/config/model_config_test.go:13-15 | joining an already joined command changes nothing |
| Command.TokenizeSpaced | proxy/config/model_config_test.go:18-20 | quote-free words separated by any runs of spaces, tabs or line breaks come back exactly, in order |
| Command.TokenizeQuoteFree | proxy/config/model_config_test.go:18-19 | a command without quote characters never fails to split |
| Command.TokenizeFailsIffOpenQuote | proxy/config/model_config_test.go:18-19 | splitting fails exactly when the command leaves a quote open (an opening `'` or `"` outside quotes with no matching quote after it), and the only failure is the unterminated quote; a command whose quotes all close always splits |
| Command.TokenizeQuotedArgument | proxy/config/model_config_test.go:18-19 | a quoted part glued to an unquoted word joins that word with its contents, whitespace included |
| Command.SanitizedCommand | proxy/config/model_config_test.go:11-20 | the sanitizer fails exactly when the command, once its continuations are joined, leaves a quote open, and that unterminated quote is its only error |
| Command.SanitizedCommandSpaced | proxy/config/model_config_test.go:13-20 | a launch command of unquoted words in any whitespace gaps, without continuations, sanitizes to exactly those words in order |
| Command.SanitizedCommandContinued | proxy/config/model_config_test.go:13-15 | a backslash-newline between two lines sanitizes the same as one space there |
| Command.SanitizedCommandExample | proxy/config/model_config_test.go:11-20 | the three-line command yields `python`, `model1.py`, `--arg1`, `value1`, `--arg2`, `value2` and no error |
| Macros.Substitute | proxy/config/model_config_test.go:24-43 | with an empty macro table every string is left as it is; what it does with a table is stated by the five rows below it: placeholders, `$`-free text, known placeholders whatever their names hold, and any `$` that starts no known placeholder |
| Macros.SubstituteRendered | proxy/config/model_config_test.go:24-43 | substituting into text made of plain parts and placeholders gives the expansion: each known placeholder becomes its value verbatim, an unknown one stays, and plain text is unchanged |
| Macros.SubstitutePlainPrefix | proxy/config/model_config_test.go:24-43 | text without `$` passes through substitution unchanged |
| Macros.SubstitutePlaceholderPrefix | proxy/config/model_config_test.go:26-33 | a leading `${name}` is replaced by the table's value for `name`, or kept when the name is unknown, and the rest is substituted independently |
| Macros.SubstituteKnownPlaceholder | proxy/config/model_config_test.go:26-33 | a leading `${name}` whose name the table knows is replaced by its value for any name without `}`, a `$` in the name included, and the rest is substituted on its own |
| Macros.SubstituteNoKnownPlaceholder | proxy/config/model_config_test.go:24-43 | where the text does not start with `${name}` for a name the table knows (a bare `$HOME`, an unclosed `${port`, `$$`, any other character), its first character is copied unchanged and the rest is substituted on its own |
| Filters.SanitizedStripParams | proxy/config/model_config_test.go:44-49 | the names are strictly ascending (so distinct), non-empty, not `model`, trimmed and comma-free, and are exactly the kept trimmed pieces of the directive |
| Filters.CleanedMembers | proxy/config/model_config_test.go:44-49 | a name survives cleaning exactly when it is the trimmed form of some piece and is kept |
| Filters.SortedUnique | proxy/config/model_config_test.go:43-49 | two strictly ascending lists with the same members are equal, so the sanitized list is determined by its set of names |
| Filters.SanitizedSameNames | proxy/config/model_config_test.go:44-49 | two directives with the same kept names sanitize to the same list, whatever their order, repeats and empty pieces |
| Filters.SanitizedIdempotent | proxy/config/model_config_test.go:44-49 | joining the sanitized list with commas and sanitizing again gives the same list |
| Filters.StripParamsExample | proxy/config/model_config_test.go:42-49 | the expanded directive of the test sanitizes to `temperature`, `top_k`, `top_p` |
| Loader.Directive | proxy/config/model_config_test.go:33-38 | the directive is the canonical key's text or the legacy key's, and it is empty only when both are |
| Loader.LegacyAlias | proxy/config/model_config_test.go:33-49 | a directive under `strip_params` loads to the same filters as under `stripParams` |
| Loader.CanonicalWins | proxy/config/model_config_test.go:31-37 | when `stripParams` is non-empty the legacy key is ignored |
| Loader.LoadedDirective | proxy/config/model_config_test.go:24-43 | under either key, a directive of plain text and placeholders loads to its expansion by the macro table |
| Loader.FilterScenario | proxy/config/model_config_test.go:23-53 | in the test's configuration every model, canonical or legacy, loads to `model, top_k, top_k, temperature, temperature, top_p, , ,` and sanitizes to `temperature`, `top_k`, `top_p` |
| Loader.LoadModel | proxy/config/model_config_test.go:96-114 | a loaded model always has a loading-state flag: its own override when it has one, the global default otherwise; the proxy target is kept |
| Loader.LoadConfig | proxy/config/model_config_test.go:96-114 | loading keeps the global flag and the set of model names |
| Loader.LoadedLoadingState | proxy/config/model_config_test.go:96-114 | every model of a loaded configuration has a flag, equal to its override or else the global default |
| Loader.LoadingStateScenario | proxy/config/model_config_test.go:96-114 | global `true`, `model1` overriding with `false` and `model2` silent load to `false` for `model1` and `true` for `model2` |
| Remote.IsRemoteModel | proxy/config/model_config_test.go:63-64 | a model with a launch command is never remote, whatever its proxy |
| Remote.RemoteOfHostName | proxy/config/model_config_test.go:67-77 | for a target `scheme://name[:port][/path]` the model is remote exactly when `name` is not loopback |
| Remote.RemoteOfBracketed | proxy/config/model_config_test.go:70-78 | for a target `scheme://[ip][:port][/path]` the model is remote exactly when `ip` is not loopback |
| Remote.RemoteOfIPv4 | proxy/config/model_config_test.go:69-77 | for a dotted-quad host the model is remote exactly when the first octet is not 127 |
| Remote.RemoteOfIPv6 | proxy/config/model_config_test.go:70-78 | for a bracketed full-form IPv6 host the model is remote exactly when the address is not loopback |
| Remote.NoHostIsRemote | proxy/config/model_config_test.go:81-82 | a target with no colon and no leading slash, the empty one included, makes the model remote |
| Remote.RemoteNamedHost | proxy/config/model_config_test.go:67-67 | `http://example.com:8080` is remote |
| Remote.RemoteHttpsWithPath | proxy/config/model_config_test.go:68-68 | `https://api.openai.com/v1` is remote |
| Remote.RemotePrivateIPv4 | proxy/config/model_config_test.go:69-69 | `http://192.168.1.100:8080` is remote |
| Remote.RemoteIPv6 | proxy/config/model_config_test.go:70-70 | `http://[2001:db8::1]:8080` is remote |
| Remote.LocalhostIsLocal | proxy/config/model_config_test.go:73-74 | `http://localhost:8080` and `http://localhost` are local |
| Remote.LoopbackIPv4IsLocal | proxy/config/model_config_test.go:75-76 | `http://127.0.0.1:8080` and `http://127.0.0.2:8080` are local |
| Remote.TopLoopbackIPv4IsLocal | proxy/config/model_config_test.go:77-77 | `http://127.255.255.255:8080` is local |
| Remote.LoopbackIPv6IsLocal | proxy/config/model_config_test.go:78-78 | `http://[::1]:8080` is local |
| Remote.NotAUrlIsRemote | proxy/config/model_config_test.go:81-82 | `not-a-url` and the empty proxy are remote |
| ProxyUrl.ParseUrlOfAuthority | proxy/config/model_config_test.go:67-78 | a URL `scheme://authority/path` reads as that scheme with the host its authority gives, and fails exactly when that host is rejected (a malformed port or an unclosed bracket) |
| ProxyUrl.HostnameOfName | proxy/config/model_config_test.go:67-77 | a host name with an optional numeric port is accepted, and its hostname is the name without the port |
| ProxyUrl.HostnameOfBracketed | proxy/config/model_config_test.go:70-78 | a bracketed IPv6 literal with an optional port is accepted, and its hostname is the literal without brackets or port |
| ProxyUrl.ParseUrlNoHost | proxy/config/model_config_test.go:81-82 | text with no colon and no leading slash parses as a relative reference with an empty hostname |
| Address.ParseFormatIPv4 | proxy/config/model_config_test.go:69-77 | parsing the dotted quad of four octets gives those octets back |
| Address.FormatParseIPv4 | proxy/config/model_config_test.go:69-77 | an accepted dotted quad is exactly the canonical writing of its octets, so no other spelling is accepted |
| Address.ParseFormatIPv6 | proxy/config/model_config_test.go:70-78 | parsing the full form of eight groups gives those groups back |
| Address.ParseIPOfIPv4 | proxy/config/model_config_test.go:69-77 | a dotted quad is read as an IPv4 address |
| Address.ParseIPOfIPv6 | proxy/config/model_config_test.go:70-78 | a full-form IPv6 address is read as an IPv6 address |
| Address.NameNotAddress | proxy/config/model_config_test.go:67-68 | a host name starting with a letter and holding no colon is not an address |
| Address.ParseIPv6Loopback | proxy/config/model_config_test.go:78-78 | `::1` is the IPv6 loopback address |
| Address.ParseIPv6Documentation | proxy/config/model_config_test.go:70-70 | `2001:db8::1` is 2001:db8:0:0:0:0:0:1, with the `::` standing for five zero groups |

## Left out

- Reading the YAML document (`LoadConfigFromReader`): the model starts from the parsed record (`Loader.RawConfig`). A key that is absent reads as the empty string, as a Go string field does.
- Loader.Directive: an explicitly empty `stripParams` cannot be told apart from an absent one, so it also falls back to `strip_params`. Go string fields have the same limitation.
- The `${PORT}` macro and the allocation of the port it stands for are runtime concerns. In the model `${PORT}` is an ordinary macro name, kept as written when the table has no entry for it.
- Macro substitution into fields other than the command and the strip-params directive is not modelled. The tests exercise no other field.
- Filters.SanitizedStripParams: the Go method also returns an error value, which the tests show is nil. The model's function cannot fail.
- Command.SanitizedCommand: only quoting with `'` and `"` is modelled. Backslash escapes other than the line continuation, `#` comments and the other rules of a full POSIX shell lexer are left out. A carriage return before the newline (`\r\n`) is not treated as a continuation.
- Whitespace for trimming filter names is the ASCII set (space, tab, line feed, vertical tab, form feed, carriage return). Unicode white space is not modelled.
- In a launch command, words are separated by space, tab and line feed only, the default field separators of a POSIX shell. A vertical tab, form feed or carriage return is part of a word.
- ProxyUrl.ParseUrl leaves out several parts of Go's `net/url`: percent-decoding, validation of userinfo, rejection of control characters and spaces, the rejection in current Go releases of a bracketed host that is not an IPv6 address (`http://[localhost]:8080`, `http://[127.0.0.1]:8080`), and IPv6 zone identifiers. So the model accepts some targets that Go rejects, for instance `http://localhost:8080/%zz` (an invalid escape) or a space in the userinfo. When such a target names a loopback host the model classifies it as local, whereas the program, whose parse fails, classifies it as remote.
- Remote.IsRemoteModel: because of the `ProxyUrl.ParseUrl` gap above, a target with a loopback host that Go fails to parse is local here, where the program reports it remote. In the other direction, because of the `Address.ParseIP` gap below, a bracketed IPv4-mapped loopback written with a dotted quad (`http://[::ffff:127.0.0.1]:8080`) is remote here, where the program reports it local.
- Address.ParseIP leaves out IPv6 addresses with an embedded dotted quad (`::ffff:1.2.3.4`) and zones (`%eth0`); they parse as no address. The IPv4-mapped loopback is still recognised in its hexadecimal form.
- Process spawning, proxying requests and watching the configuration file are outside this model.
