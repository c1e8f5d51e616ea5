# accept-encoding, modelled in Dafny

A model of the `accept-encoding` Rust crate's `parse` function and its
`Encoding` enum. `parse` reads the `Accept-Encoding` request header from an
`http::HeaderMap`. It reduces the header to one of `Gzip`, `Deflate`,
`Brotli` or `None`, or to one of two errors, `InvalidEncoding` and
`UnknownEncoding`.

The code does not implement the header grammar of section 12.5.3 of RFC
9110. It does no comma splitting, no `;q=` parsing and no wildcard
handling. It tests the header text for substrings in a fixed order:

- no `Accept-Encoding` field gives `Ok(None)`;
- a first value that is not readable text gives `Err(InvalidEncoding)`;
- otherwise `"br"` anywhere gives `Brotli`;
- failing that, `"deflate"` gives `Deflate`;
- failing that, `"gzip"` gives `Gzip`;
- otherwise the result is `Err(UnknownEncoding)`.

The crate's test file expects results that contradict this code: it
expects `"gzip, deflate, br"` to give `Gzip`, while the code gives `Brotli`.
This model follows the code in `src/lib.rs`. It proves that the documented
example gives `Brotli`. It also proves that several things a real
negotiation would look at have no effect: the order of the tokens, the
separator between them (any non-empty text without a letter of "br",
"deflate" or "gzip", such as `", "`, `","` or `" "`), such text around the
value, and quality values (even `q=0`) or other parameters without such
letters, attached to any of the tokens, each its own or none. Whitespace
inside a name does matter: `"g zip"` names no encoding.

Files:

- `wrappers.dfy`: Rust's `Option` and `Result`.
- `substring.dfy`: a recursive search (`Contains`) with the same result as
  `str::contains`, and an independent definition by index (`Occurs`). The lemmas relate the two
  and show how occurrences behave under concatenation and joining.
- `http.dfy`: the parts of the `http` crate that `parse` calls, which are
  `HeaderMap::get` and `HeaderValue::to_str`.
- `accept_encoding.dfy`: `Encoding`, `ErrorKind`, `parse` and its
  properties.

## Model

| member | source | states |
|---|---|---|
| AcceptEncoding.Parse | src/lib.rs:42-59 | For every header map, the result is `Ok(None)` exactly when no `Accept-Encoding` field is present. It is `Err(InvalidEncoding)` exactly when the first value is present but not readable as text. It is `Brotli` exactly when the readable text contains "br". It is `Deflate` exactly when the text contains "deflate" but not "br". It is `Gzip` exactly when the text contains "gzip" but neither of the others. It is `Err(UnknownEncoding)` exactly when readable text contains none of the three. |
| AcceptEncoding.Select | src/lib.rs:50-58 | The if/else-if chain over readable text: "br", then "deflate", then "gzip" decides, and otherwise the encoding is unknown. Each outcome is stated as an if-and-only-if in terms of where the names occur. Readable text never yields `None` and never `InvalidEncoding`. |
| Substring.ContainsOccurs | src/lib.rs:50-54 | The search that stands for each `contains` test (same result as `str::contains`, not the same algorithm) succeeds exactly when the pattern sits at some index of the text. |
| Http.Get | src/lib.rs:43-46 | `HeaderMap::get` finds nothing exactly when no field has the name. Otherwise it returns the value of the first field with that name. |
| Http.GetIgnoresLaterFields | src/lib.rs:43 | Fields appended after a field with the name do not change what `get` returns. |
| Http.ToStr | src/lib.rs:48 | `to_str` succeeds exactly when every byte is visible ASCII or tab. The text it returns encodes back to the same bytes. |
| Http.ToStrFromText | src/lib.rs:48 | A header value built from visible text reads back as that text. |
| AcceptEncoding.ExactlyOneVariant | src/lib.rs:29-39 | Exactly one of the derived predicates `IsGzip`, `IsDeflate`, `IsBrotli` and `IsNone` holds for each encoding. |
| AcceptEncoding.LaterFieldsIgnored | src/lib.rs:43 | Only the first `Accept-Encoding` field is consulted. Appending fields, including more `Accept-Encoding` values, leaves the result unchanged. |
| AcceptEncoding.SelectDependsOnlyOnNames | src/lib.rs:50-58 | Two texts in which the same subset of "br", "deflate" and "gzip" occurs give the same result. |
| AcceptEncoding.PaddingIgnored | src/lib.rs:50-58 | Text placed before or after the value changes nothing when it contains no letter of the three names: whitespace, commas, and parameters without those letters such as `;q=0.5`. |
| AcceptEncoding.QValueIgnored | src/lib.rs:50-58 | Appending a `;q=` quality value at the end of the header text never changes the result. |
| AcceptEncoding.QValuesIgnored | src/lib.rs:50-58 | In a list of tokens, giving each token its own `;q=` quality value never changes the result: "gzip;q=0.5, br;q=0.9" gives the same as "gzip, br". |
| AcceptEncoding.ParamsIgnored | src/lib.rs:50-58 | In a list of tokens, attaching to any of the tokens its own parameter text without a letter of the three names (a `;q=` value, or nothing) never changes the result. |
| AcceptEncoding.MixedQValuesExample | src/lib.rs:50-58 | "gzip;q=0.5, br", with a quality value on only one token, gives the same result as "gzip, br". |
| AcceptEncoding.TokenOrderIgnored | src/lib.rs:50-58 | Joining the same tokens in any order gives the same result. The separator may be any non-empty text without a letter of the three names. |
| AcceptEncoding.SeparatorIgnored | src/lib.rs:50-58 | Joining the same tokens with two different separators gives the same result, when each separator is non-empty and holds no letter of the three names ("gzip, br", "gzip,br" and "gzip br" agree). |
| AcceptEncoding.InnerWhitespaceExample | src/lib.rs:54-57 | Whitespace inside a name is not ignored: "g zip" gives `Err(UnknownEncoding)`. |
| AcceptEncoding.BrotliIffSomeToken | src/lib.rs:50-51 | For a joined list of tokens, the result is `Brotli` exactly when some single token contains "br". |
| AcceptEncoding.DocumentedExample | src/lib.rs:13-17 | The header "gzip, deflate, br" parses to an encoding for which `is_brotli` holds. |
| AcceptEncoding.AbsentHeaderExample | src/lib.rs:43-45 | An empty header map gives `Ok(None)`. |
| AcceptEncoding.UnknownExample | src/lib.rs:56-57 | "identity" and the empty value each give `Err(UnknownEncoding)`. |
| AcceptEncoding.UnreadableExample | src/lib.rs:48 | A well-formed value whose bytes spell "br" followed by the byte 255 gives `Err(InvalidEncoding)`. Readability is decided before any name is looked for. |
| AcceptEncoding.RefusedBrotliStillChosen | src/lib.rs:50-51 | "gzip, br;q=0" gives `Brotli`, although `q=0` marks brotli as not acceptable. |

## Left out

- Error wrapping: `failure`'s `context` and the `Error` type of `src/error.rs`. `src/error.rs` is not part of this model. Errors are the two `ErrorKind` values named in `src/lib.rs`.
- `HeaderMap` storage: the model is a sequence of fields in insertion order. The `http` crate stores names in lower case and only value bytes that are tab or 32..255 except 127; `Http.WellFormed` states these two conditions (not that crate's further restriction of names to token characters), but the datatypes do not enforce it, and `Parse` is specified for every map, including ones the crate cannot build (a field named "Accept-Encoding" is not found). Case-insensitive name matching, hashing and `insert`/`append` are not modelled. Only `get` is modelled, because it is the only call `parse` makes.
- Http.ToStr: the byte rule (visible ASCII 32..126 or tab) is the `http` crate's rule for `to_str`. That crate is not part of this model. Every property of `Parse` is stated in terms of `ToStr`'s result, so it does not depend on the exact rule.
- Byte-level search: Rust's `contains` works on UTF-8 bytes, and the model works on characters. Readable text is ASCII only, so the two agree.
- The `derive_is_enum_variant` macro itself: the derived `is_*` predicates are written out as datatype predicates.
- The newer API exercised by `tests/test.rs` (an `Option` result, a `Zstd` variant, `encodings`, floating-point quality values and wildcard handling): none of it exists in `src/lib.rs`, so none of it is modelled.
