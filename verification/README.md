# fx_string.h string layer, modelled in Dafny

This project models the string value types of PDFium's `core/fxcrt/include/fx_string.h`
and proves properties of the model:

- **Views** (`CFX_ByteStringC`, `CFX_WideStringC`, module `StringView`): a view is a
  pointer (NULL, or an offset into a block of caller-owned memory) and a length.
  Construction (including the `-1` "scan for the terminator" length), `GetLength`,
  `IsEmpty`, `GetAt`, `Find`, the clamped zero-copy slices `Mid`, `Left` and `Right`,
  `==`, `!=` and `operator<` are pure functions. Slices are stated to cover only
  memory the parent view covers, in the same block.
- **Ordering** (module `LexOrder`): `memcmp`/`wmemcmp` as a sign-returning scan with an
  exact characterisation, the `operator<` recipe built on it (compare the common
  prefix, then the shorter first), and an independent lexicographic order it is
  proved equal to. That order is proved irreflexive, transitive, asymmetric and
  total on distinct contents.
- **Owning strings** (`CFX_ByteString`, `CFX_WideString`, module `SharedString`): the
  heap is an explicit table of reference-counted buffers, and each string object
  is a slot holding a handle (`NoBuffer` is the null `m_pData`). The invariant is
  that every buffer's reference count equals the number of slots holding it. Copy
  construction shares the buffer and increments the count; move hands it over and
  leaves the source empty; `clear()` releases it. Every mutator first makes the
  buffer exclusive (cloning it if shared) and then edits the private copy. The
  model proves that such a write changes no other string. The no-buffer state
  reads as length 0, `c_str()` is the empty terminated string and `GetAt` yields 0.
  `AsStringC()` gives a view over the buffer's terminated units. Every `operator+` overload goes through
  the two-view constructor and yields the left operand's units followed by the right's.
- **Tags** (module `StringId`): the `FXBSTR_ID` macro as 32-bit arithmetic, with the
  signedness of `char` as a parameter.

Code units are mathematical integers. Byte memory is read through `const uint8_t*`,
so byte units are values in [0, 256) (`StringView.ByteUnits`). The store's invariant
keeps every buffer of a byte store within that range (`SharedString.Fits`). The byte
operations that take foreign memory require it: `ByteFind`, and the constructors and
`+=` of a byte string. A `FX_CHAR` argument is stored as its value modulo 256. Wide
strings hold `wchar_t` values. Integer order on the stored values is the order
`memcmp`/`wmemcmp` use.

## Model

| member | source | states |
|---|---|---|
| `LexOrder.MemCmp` | core/fxcrt/include/fx_string.h:122-125 | the comparison is 0 exactly when the first n units agree, negative exactly when the first difference has the smaller unit on the left, positive exactly when it has the larger |
| `LexOrder.MemCmpLessIsLexLess` | core/fxcrt/include/fx_string.h:122-125 | "memcmp over the shorter length, then the shorter first" is exactly the lexicographic order (first difference, or proper prefix) |
| `LexOrder.LexLessIrreflexive` | core/fxcrt/include/fx_string.h:450-453 | no string is below itself |
| `LexOrder.LexLessTransitive` | core/fxcrt/include/fx_string.h:450-453 | the order is transitive |
| `LexOrder.LexLessConnected` | core/fxcrt/include/fx_string.h:450-453 | of two different strings one is below the other |
| `LexOrder.LexLessAsymmetric` | core/fxcrt/include/fx_string.h:450-453 | if a is below b then b is not below a |
| `StringView.StrLen` | core/fxcrt/include/fx_string.h:51-54 | the scan stops at the first zero unit: the unit there is 0 and none before it is |
| `StringView.Default` | core/fxcrt/include/fx_string.h:28-31 | the default view is a NULL pointer with no content |
| `StringView.FromRaw` | core/fxcrt/include/fx_string.h:33-36 | the (uint8_t pointer, size) constructor keeps pointer and size as given, with no sentinel |
| `StringView.FromCString` | core/fxcrt/include/fx_string.h:39-42 | a NULL C string gives length 0; otherwise the view covers the units up to the terminator, which follows it |
| `StringView.FromUnit` | core/fxcrt/include/fx_string.h:366-369 | a single wide character gives a view of length 1 holding that character |
| `StringView.ByteFromUnit` | core/fxcrt/include/fx_string.h:46-49 | a single `FX_CHAR` gives a view of length 1 holding its value as an unsigned byte (ch mod 256), since the view reads it through a `uint8_t` pointer |
| `StringView.ByteUnitFoundByFind` | core/fxcrt/include/fx_string.h:46-49 | `Find` of a character in the one-character byte view of it returns 0, for negative characters too |
| `StringView.FromPtrLen` | core/fxcrt/include/fx_string.h:51-54 | length -1 scans for the terminator (the wide constructor at lines 371-374 does the same); any other length is stored as given |
| `StringView.GetLength` | core/fxcrt/include/fx_string.h:93 | the length is the number of units the view covers |
| `StringView.IsEmpty` | core/fxcrt/include/fx_string.h:94 | empty exactly when the view covers no units |
| `StringView.GetAt` | core/fxcrt/include/fx_string.h:96 | a read inside the view yields the unit at that position |
| `StringView.IndexFrom` | core/fxcrt/include/fx_string.h:101-105 | the scan returns -1 exactly when the unit is absent, and otherwise the first position holding it |
| `StringView.FindUnit` | core/fxcrt/include/fx_string.h:419-423 | the result lies in [-1, length); -1 exactly when the unit is absent; otherwise the unit sits there and nowhere before |
| `StringView.ByteFind` | core/fxcrt/include/fx_string.h:101-105 | on byte memory (units in [0, 256)), as FindUnit for the needle converted to unsigned char (ch mod 256), as memchr does |
| `StringView.WideFind` | core/fxcrt/include/fx_string.h:419-423 | as FindUnit for the wide needle as it is |
| `StringView.Mid` | core/fxcrt/include/fx_string.h:107-118 | a negative index counts as 0; an index past the end gives the default view; a negative or oversized count runs to the end; otherwise exactly units [index, index+count); the result never covers memory outside the parent view and shares its memory |
| `StringView.Left` | core/fxcrt/include/fx_string.h:409-417 | a count below 1 gives the default view, a count over the length is clamped; the result is that prefix, at the same pointer |
| `StringView.Right` | core/fxcrt/include/fx_string.h:438-446 | a count below 1 gives the default view, a count over the length is clamped; the result is that suffix, starting at the pointer advanced by length minus the clamped count, inside the parent view |
| `StringView.LeftRightSplit` | core/fxcrt/include/fx_string.h:409-446 | Left(n) followed by Right(L-n) is the whole view, for 0 <= n <= L |
| `StringView.MidSplit` | core/fxcrt/include/fx_string.h:107-118 | Mid(0, i) followed by Mid(i) is the whole view, for 0 <= i <= L |
| `StringView.MidOfMid` | core/fxcrt/include/fx_string.h:425-436 | an in-range slice of an in-range slice is the slice of the original at the summed offset |
| `StringView.Equal` | core/fxcrt/include/fx_string.h:77-80 | equal exactly when both views hold the same units (same length and every unit equal) |
| `StringView.NotEqual` | core/fxcrt/include/fx_string.h:82-84 | `!=` holds exactly when the contents differ |
| `StringView.EqualCString` | core/fxcrt/include/fx_string.h:73-76 | equal to a C string exactly when the view holds the units before its terminator |
| `StringView.NotEqualCString` | core/fxcrt/include/fx_string.h:81 | `!=` against a C string holds exactly when the view's units differ from the C string's |
| `StringView.Less` | core/fxcrt/include/fx_string.h:122-125 | `operator<` holds exactly when the contents are in lexicographic order |
| `StringView.LessIsStrictOrder` | core/fxcrt/include/fx_string.h:450-453 | `<` on views is irreflexive, transitive and asymmetric, and any two views are `==` or ordered one way |
| `StringId.CharToUint32` | core/fxcrt/include/fx_string.h:140-142 | the cast keeps the character's byte in the low 8 bits; an unsigned or non-negative character is zero-extended, a negative signed one fills the upper 24 bits with ones |
| `StringId.CharsId` | core/fxcrt/include/fx_string.h:140-142 | the tag is each character converted by `CharToUint32`, shifted left by 24, 16, 8 and 0 bits (`FxbstrId`) and OR-ed; its lowest byte is always c4, and the byte above it is c3 unless c4 sign-extends |
| `StringId.CharsIdRoundTrip` | core/fxcrt/include/fx_string.h:140-142 | without sign spill each of the four characters is read back from its own byte of the tag, c1 on top |
| `StringId.CharsIdValue` | core/fxcrt/include/fx_string.h:140-142 | without sign spill the tag is the base-256 number c1 c2 c3 c4 |
| `StringId.SignedLastCharSpills` | core/fxcrt/include/fx_string.h:140-142 | with signed characters, a last character with its top bit set turns the three bytes above it into 0xFF |
| `SharedString.NewEmpty` | core/fxcrt/include/fx_string.h:150 | a default-constructed string holds no buffer, reads as empty and changes no other string |
| `SharedString.CopyConstruct` | core/fxcrt/include/fx_string.h:151 | the copy holds the very same buffer, whose count rises by one; nothing is allocated and no units change |
| `SharedString.MoveConstruct` | core/fxcrt/include/fx_string.h:152 | the new string takes the source's buffer, the source is left with none, and no count changes |
| `SharedString.Clear` | core/fxcrt/include/fx_string.h:168 | the string drops its buffer; the count falls by one and the last reference frees it; no other string changes |
| `SharedString.ConstructFrom` | core/fxcrt/include/fx_string.h:159-160 | a string built from foreign units holds exactly those units in a buffer no one else holds, and existing buffers are untouched |
| `SharedString.FromView` | core/fxcrt/include/fx_string.h:163 | the new string holds a private copy of the view's units |
| `SharedString.FromChar` | core/fxcrt/include/fx_string.h:155 | the new string holds the one character |
| `SharedString.FromViews` | core/fxcrt/include/fx_string.h:164 | the new string holds the first view's units followed by the second's |
| `SharedString.GetLength` | core/fxcrt/include/fx_string.h:190 | the length is the number of units the string reads as, 0 without a buffer |
| `SharedString.IsEmpty` | core/fxcrt/include/fx_string.h:191 | empty exactly when the string reads as no units |
| `SharedString.CStr` | core/fxcrt/include/fx_string.h:175 | `c_str()` is the string's units followed by a terminating 0, the static empty string without a buffer |
| `SharedString.GetAt` | core/fxcrt/include/fx_string.h:221-227 | without a buffer every index reads 0; inside the string it reads the unit; at the length it reads the terminator 0; a byte string reads a `uint8_t` value in [0, 256) |
| `SharedString.AsStringC` | core/fxcrt/include/fx_string.h:186-188 | the view holds the string's units and is a view over the buffer's terminated units; without a buffer the byte string gives a NULL view and the wide one (lines 509-511) a view of the static empty string |
| `SharedString.Less` | core/fxcrt/include/fx_string.h:206-210 | `operator<` holds exactly when the contents are in lexicographic order |
| `SharedString.LessAgreesWithViews` | core/fxcrt/include/fx_string.h:537-541 | `<` on owning strings agrees with `<` on their `AsStringC()` views |
| `SharedString.LessIsStrictOrder` | core/fxcrt/include/fx_string.h:206-210 | `<` on owning strings is irreflexive, transitive and asymmetric, and total on different contents |
| `SharedString.EmptyStringReads` | core/fxcrt/include/fx_string.h:543-549 | a string with no buffer has length 0, is empty, has `c_str()` equal to the empty terminated string, reads 0 at every index and views as empty |
| `SharedString.OperandView` | core/fxcrt/include/fx_string.h:304-347 | the view an `operator+` argument is turned into (the argument itself, the C-string view, the one-character view or `AsStringC()`) holds exactly the units the argument contributes |
| `SharedString.Plus` | core/fxcrt/include/fx_string.h:304-347 | every one of the twelve overloads (lines 610-653 for wide) yields a new unshared string holding the left operand's units then the right's, of the summed length, and changes no other string |
| `SharedString.MakeExclusive` | core/fxcrt/include/fx_string.h:144-145 | before a write a shared buffer is cloned for the writer; afterwards the writer holds it alone and every string reads as before |
| `SharedString.EditOwned` | core/fxcrt/include/fx_string.h:471-472 | a write to an exclusively held buffer changes the writer's content by the edit and no other string |
| `SharedString.Mutate` | core/fxcrt/include/fx_string.h:229-263 | any mutator changes the target's content by its edit, leaves every other string's content unchanged, and leaves the target holding its buffer alone |
| `SharedString.SetAt` | core/fxcrt/include/fx_string.h:229 | the unit at the index becomes the character; the length and every other unit stay; no other string changes |
| `SharedString.AppendView` | core/fxcrt/include/fx_string.h:219 | `+=` with a view appends the view's units; no other string changes |
| `SharedString.AppendChar` | core/fxcrt/include/fx_string.h:216 | `+=` with a character appends that one unit; no other string changes |
| `SharedString.CopyOnWriteIsolation` | core/fxcrt/include/fx_string.h:144-152 | after B is copied from A, a write to B leaves A as it was and a write to A leaves B as it was |

## Left out

- `Format`/`FormatV`: printf-style formatting over variadic arguments, with no interpreter in the header.
- Floating point: `FormatFloat`, `GetFloat`, `FX_atof`, `FX_ftoa` and the float branch of `FX_atonum`.
- Transcoding: `FromLocal`, `FromCodePage`, `FromUnicode` depend on platform code-page tables. `UTF8Decode`, `FromUTF8`, `FX_UTF8Encode`, `FromUTF16LE` and `UTF16LE_Encode` are declared without bodies, and their policy for malformed input is not visible.
- `GetBuffer`/`ReleaseBuffer`/`Reserve`, `raw_str`/`c_str` pointer invalidation and the private `operator new` of the views: these are memory-lifetime conventions, not value behaviour. Buffer capacity (`m_nAllocLength`) is not modelled.
- The reference count is updated as a plain number; its atomicity across threads is not modelled.
- Declared without a body in the header, so not modelled: `operator==`/`!=` on owning strings, `Compare`, `EqualNoCase`, `CompareNoCase`, the assignment operators of the owning strings, `Find`/`ReverseFind`/`Mid`/`Left`/`Right` on owning strings, `GetID`, `GetInteger`, `FormatInteger` and `WStringLength`.
- The view assignment operators behave as the matching constructors. The wide view's `operator=` from a C string (line 381) calls `wcslen` without a NULL check; that undefined case is not modelled.
- The free `==`/`!=` operators with the C string on the left (lines 134-139, 463-468) only swap their arguments, so they are `EqualCString`/`NotEqualCString` and have no member of their own.
- Memory identity: a pointer is modelled by the units it points at, so a view that borrows a buffer and a view of a copy of the same units cannot be told apart. `SharedString.AsStringC` therefore states the view's units and pointer contents, not that it aliases the table entry.
- `CFX_ByteStringC::CharAt` returns the unit converted to a possibly signed `FX_CHAR`. That conversion is platform-dependent and not modelled.
- `FX_STRSIZE` is a 32-bit signed integer in the source; lengths and indices here are unbounded, so overflow of a summed length is not modelled.
- SharedString.Mutate: the content effect of `Insert`, `Delete`, `MakeLower`/`MakeUpper`, the `TrimLeft`/`TrimRight` family, `Replace` and `Remove`, and their return values, are not stated. Their bodies are not in the header, so they are modelled as an arbitrary edit, and only the copy-on-write guarantee is proved for them.
- SharedString.Mutate: for a byte string the edit must produce `uint8_t` values. The mutators write unsigned bytes, so this is the width of the buffer, not an extra condition on the caller. A mutator that produced other integers has no counterpart in the source.
- SharedString.ConstructFrom: when the foreign units are empty the model holds no buffer. The constructors' bodies are not in the header, so this choice is the model's, not the source's. It is unobservable through the content.
- StringId.CharToUint32: only 8-bit character arguments are modelled. `FXBSTR_ID` applied to wider integer expressions is not.
