# Tracked buffer: the AST unparser's directive interpreter

This project models `parser/tracked_buffer.go`: the `TrackedBuffer` that rebuilds a
query string from the syntax tree, and its directive interpreter `Myprintf`.
`Myprintf` scans a format string from left to right. It copies each run of bytes
other than `%` to an append-only buffer. At each two-byte directive `%x` it takes the
next positional argument and switches on the verb:

- `%c` writes a `byte` as itself and a `rune` as its UTF-8 encoding;
- `%s` writes a `[]byte` or a `string` verbatim;
- `%v` calls `node.Format(buf)` on an `SQLNode`, which renders the child into the same buffer;
- `%a` writes a `string` verbatim.

Any other verb panics, `%%` included. So does an argument of the wrong type, a `%` as the
last byte of the format, and a directive with no argument left. `WriteNode(node)` is
`Myprintf("%v", node)`.

Modules, one per concern:

- `Bytes` (bytes.dfy): Go's `byte` and `rune` as integer subset types. Go's `string` and
  `[]byte` are both `seq<byte>`.
- `Utf8` (utf8.dfy): the rune encoder that `bytes.Buffer.WriteRune` uses. It is proved
  against the well-formedness grammar of section 4 of RFC 3629 and a decoder, in both
  directions.
- `Template` (template.dfy): the syntax of a format string as the scanner reads it.
  A format is literal runs and directives; `Tokenize` and `Detokenize` are inverse
  to each other.
- `TrackedBuffer` (tracked_buffer.dfy): the arguments, the nodes, the faults, and the
  functional semantics `Run`/`Directive`/`Apply`. It also holds `Myprintf` written as
  Go writes it (an outer loop, an inner literal loop, the verb switch, the type switch),
  proved equal to the functional semantics. `WriteNode` and `NewTrackedBuffer` are here too.
- `TrackedBufferProperties` (properties.dfy): what callers may rely on. It covers literal
  copy, composition of formats and of calls, left-to-right argument consumption, each
  verb, each fault, and a parent rendering its children.
- `TrackedBufferExamples` (examples.dfy): `SELECT %v FROM %v`, `%s` with `O'Brien`, and `100%%`.

The buffer is a value. Every call returns an `Outcome`. `Done(out)` holds the bytes the
call appended. `Panic(fault, partial)` holds the fault and the bytes appended before the
panic; Go's buffer keeps those bytes. `Myprintf` and `WriteNode` return the whole buffer
after the call, with the earlier contents as a prefix.

An `SQLNode` is abstracted as `Node(template, args)`: its `Format` method is one
`Myprintf(template, args...)` call on the same buffer. `SequentialCalls` shows what this
covers. Two calls in a row write the same bytes as one call with the formats and argument
lists concatenated, provided the first format is complete and uses all its arguments.
Nodes are a well-founded datatype, so rendering always terminates.

The code has four verbs (`c`, `s`, `v`, `a`); every other byte of a format up to the next
`%` is copied literally. A call reads only as many arguments as its format has directives and
ignores the rest (`ExtraArgumentsIgnored`). Too few arguments panic at `values[fieldnum]`. A
verb outside the four panics before `values[fieldnum]` is read, so `%z` with no arguments is an
unsupported directive, not a missing argument.

## Model

| member | source | states |
|---|---|---|
| TrackedBuffer.NewTrackedBuffer | parser/tracked_buffer.go:29-34 | a new buffer is empty |
| TrackedBuffer.Run | parser/tracked_buffer.go:49-93 | a scan that finishes without panicking met no `%` at the end of the format and had an argument for every directive it passed |
| TrackedBuffer.Directive | parser/tracked_buffer.go:64-90 | a directive succeeds only with one of the verbs c, s, v, a and an argument at position `fieldnum` |
| TrackedBuffer.Apply | parser/tracked_buffer.go:65-87 | `%c` succeeds exactly on a `byte` or a `rune`, `%s` exactly on a `[]byte` or a `string`, `%a` exactly on a `string`, and `%v` only on a node. A byte is written as itself, a rune as its UTF-8 encoding, bytes and strings verbatim, and a node only when its template is complete. Any other type panics with nothing written |
| TrackedBuffer.Interp | parser/tracked_buffer.go:49-94 | a `Myprintf` call that does not panic had no `%` at the end of its format and at least as many arguments as directives |
| TrackedBuffer.Render | parser/tracked_buffer.go:83-85 | `node.Format(buf)` is the node's one `Myprintf` call with its own template and arguments; a node that renders without panicking has a complete template and enough arguments |
| TrackedBuffer.ScanLiteral | parser/tracked_buffer.go:53-56 | the inner loop stops at the first `%` or at the end, and skips only bytes that are not `%` |
| TrackedBuffer.RunLiterals | parser/tracked_buffer.go:53-59 | a run without `%` is written unchanged before whatever the scan writes next |
| TrackedBuffer.Myprintf | parser/tracked_buffer.go:49-94 | the loop-and-switch implementation appends exactly what the functional semantics gives, including where it panics and what it wrote before; the old contents stay a prefix. The verb switch and the `values[fieldnum]` access are its helper `WriteDirective`, the type switches its helper `WriteArgument` |
| TrackedBuffer.WriteNode | parser/tracked_buffer.go:36-41 | `WriteNode(node)` appends the node's own rendering after the buffer's contents |
| TrackedBuffer.NodeDirective | parser/tracked_buffer.go:38-39 | `Myprintf("%v", node)` writes exactly the node's rendering |
| TrackedBufferProperties.RenderToString | parser/tracked_buffer.go:30-41 | `WriteNode` on a new buffer holds exactly the node's rendering |
| TrackedBufferProperties.LiteralCopy | parser/tracked_buffer.go:52-62 | a format with no `%` is written exactly as it is, whatever the arguments |
| TrackedBufferProperties.DirectiveAfterLiteral | parser/tracked_buffer.go:52-92 | a literal run, then one directive on the next argument, then the rest of the format on the argument after it |
| TrackedBufferProperties.ScanAppend | parser/tracked_buffer.go:52-92 | scanning a complete format followed by more text is scanning the first part, then the rest starting at the argument after the first part's last directive |
| TrackedBufferProperties.FaultStopsOutput | parser/tracked_buffer.go:72-89 | after a panic nothing more is written: text following a complete failing format never changes the outcome |
| TrackedBufferProperties.ScanByTokens | parser/tracked_buffer.go:52-93 | the output is the literal spans and the directive outputs concatenated in format order, the i-th directive reading the i-th argument; a format that ends in `%` panics |
| TrackedBufferProperties.ExtraArgumentsIgnored | parser/tracked_buffer.go:66-87 | arguments beyond the last directive are never read |
| TrackedBufferProperties.ShiftArguments | parser/tracked_buffer.go:51-91 | the directives read arguments by position from `fieldnum`, one each, so earlier arguments never matter |
| TrackedBufferProperties.SequentialCalls | parser/tracked_buffer.go:49-93 | two calls in a row on one buffer write what one call with concatenated formats and arguments writes, when the first format is complete and uses all its arguments |
| TrackedBufferProperties.DanglingPercentPanics | parser/tracked_buffer.go:63-64 | a `%` as the last byte panics once the text before it is written |
| TrackedBufferProperties.UnsupportedVerbPanics | parser/tracked_buffer.go:88-89 | any verb other than c, s, v, a panics, even with no arguments left, after the preceding text and before anything that follows |
| TrackedBufferProperties.PercentPercentPanics | parser/tracked_buffer.go:88-89 | `%%` is not an escape: it panics as an unsupported directive |
| TrackedBufferProperties.MissingArgumentPanics | parser/tracked_buffer.go:64-66 | a known verb with no argument left panics at `values[fieldnum]` after the preceding text |
| TrackedBufferProperties.MalformedCallsPanic | parser/tracked_buffer.go:63-66 | a format ending in `%`, or one with more directives than arguments, always panics |
| TrackedBufferProperties.CharVerb | parser/tracked_buffer.go:65-73 | `%c` writes a byte as exactly that one byte. It writes a rune as one well-formed UTF-8 character that decodes to the rune, or to U+FFFD for a rune that is no scalar value. Any other type panics |
| TrackedBufferProperties.StringVerb | parser/tracked_buffer.go:74-82 | `%s` writes a `[]byte` or a `string` byte for byte and panics on any other type |
| TrackedBufferProperties.TrackedVerb | parser/tracked_buffer.go:86-87 | `%a` writes a `string` byte for byte and panics on anything else, a `[]byte` included |
| TrackedBufferProperties.NodeVerb | parser/tracked_buffer.go:83-85 | `%v` writes exactly the node's own rendering and panics when the argument is not a node |
| TrackedBufferProperties.ChildrenCompose | parser/tracked_buffer.go:83-85 | a parent whose template is literal spans separated by `%v` writes the spans with each child's rendering between them, in order |
| Utf8.Encode | parser/tracked_buffer.go:69-70 | `WriteRune` appends one to four bytes, and a rune below 0x80 as that single byte |
| Utf8.EncodeDecode | parser/tracked_buffer.go:69-70 | what `WriteRune` appends is a character that is well formed per RFC 3629 and decodes to the rune, or to U+FFFD when the rune is negative, a surrogate or above U+10FFFF |
| Utf8.DecodeEncode | parser/tracked_buffer.go:69-70 | every well-formed character is what `WriteRune` appends for its code point |
| Utf8.EncodeInjective | parser/tracked_buffer.go:69-70 | distinct scalar values are written as distinct bytes |
| Template.LiteralEnd | parser/tracked_buffer.go:53-56 | the literal run ends at the first `%` or at the end of the format |
| Template.TokenizeComplete | parser/tracked_buffer.go:52-64 | a format splits into runs and directives exactly when no `%` ends it, with one directive token per directive |
| Template.TokenizeDetokenize | parser/tracked_buffer.go:52-64 | writing the tokens back gives the format |
| Template.TokenizeCanonical | parser/tracked_buffer.go:53-59 | each literal token is a maximal nonempty run without `%`, as the inner loop reads it |
| Template.DetokenizeTokenize | parser/tracked_buffer.go:52-64 | every canonical token sequence is the split of its own text |
| TrackedBufferExamples.SelectExample | parser/tracked_buffer.go:52-93 | `SELECT %v FROM %v` with nodes rendering `id` and `users` writes `SELECT id FROM users` |
| TrackedBufferExamples.RawStringExample | parser/tracked_buffer.go:74-79 | `%s` with `O'Brien` writes `O'Brien` unescaped |
| TrackedBufferExamples.PercentExample | parser/tracked_buffer.go:88-89 | `100%%` writes `100` and then panics |

## Left out

- Concrete `SQLNode` types and their `Format` methods are not part of this model. A node is a template with its arguments; `SequentialCalls` covers a `Format` that makes several calls.
- The panic messages (`unexpected TrackedBuffer type %T`, `unexpected`, Go's index-out-of-range text) are not modelled. A `Fault` names the fault kind, the verb and the argument position instead.
- Position tracking for `%a` is left out. The doc comment mentions tracking information, but the code only writes the string.
- `recover` by a caller is left out. After a panic the model returns the bytes written so far and stops, as the Go call unwinds.
- Cyclic or unboundedly deep node graphs cannot be expressed: nodes are a well-founded datatype. Stack exhaustion is therefore not modelled.
- The internals of `bytes.Buffer` are left out: capacity growth, and the panic when the buffer grows too large. The buffer is an append-only byte sequence.
- Concurrent use of one buffer is left out. The model is sequential.
- Dynamic types other than `byte`, `rune`, `[]byte`, `string` and `SQLNode` are one case, `AOther`. That case includes `nil` and named types based on `string` or `byte`, which Go's type switch does not match either.
- SequentialCalls: states equality of the written bytes and of panicking or not, but not of the fault's argument position, because that position counts from the start of each call.
- ShiftArguments: states equality of the written bytes and of panicking or not, but not of the fault's argument position, which differs by the shift.
