/**
 CFX_ByteStringC and CFX_WideStringC: non-owning (pointer, length) views over
 caller-owned memory. A view never allocates, copies or writes; slicing
 (`Mid`, `Left`, `Right`) only moves the pointer and shortens the length.

 Memory is a sequence of code units and a pointer is NULL or an offset into
 one such block. Byte memory is read through `const uint8_t*`, so a block a
 byte view covers holds values in [0, 256) (`ByteUnits`). The same module
 serves both widths: where the byte and wide views differ (the needle
 conversion of `Find`), there is one function per width.
 */
module StringView {
  import opened LexOrder

  /** Units that an `uint8_t` can hold. */
  predicate ByteUnits(s: seq<int>) {
    forall i :: 0 <= i < |s| ==> 0 <= s[i] < 256
  }

  /** `s[a..b][i..j]` is the slice `s[a + i..a + j]` of the original. */
  lemma SliceOfSlice(s: seq<int>, a: nat, b: nat, i: nat, j: nat)
    requires a <= b <= |s| && i <= j <= b - a
    ensures s[a..b][i..j] == s[a + i..a + j]
  {
    forall k | 0 <= k < j - i
      ensures s[a..b][i..j][k] == s[a + i..a + j][k]
    {
      assert s[a..b][i..j][k] == s[a..b][i + k];
    }
  }

  /** A raw pointer: NULL, or position `offset` inside the block `mem`. */
  datatype Ptr = Null | At(mem: seq<int>, offset: nat)

  /** `m_Ptr` and `m_Length`. */
  datatype View = View(ptr: Ptr, length: int)

  /** The view only covers memory that exists; a NULL view has length 0. */
  predicate Valid(v: View) {
    match v.ptr
    case Null => v.length == 0
    case At(mem, offset) => 0 <= v.length && offset + v.length <= |mem|
  }

  /** The units the view covers. */
  function Content(v: View): seq<int>
    requires Valid(v)
  {
    match v.ptr
    case Null => []
    case At(mem, offset) => mem[offset .. offset + v.length]
  }

  /** `r` covers only memory that `v` covers: the same block, inside `v`'s window. */
  predicate Within(r: View, v: View)
    requires Valid(r) && Valid(v)
  {
    || r.length == 0
    || (&& r.ptr.At? && v.ptr.At?
        && r.ptr.mem == v.ptr.mem
        && v.ptr.offset <= r.ptr.offset
        && r.ptr.offset + r.length <= v.ptr.offset + v.length)
  }

  /** Pointer arithmetic `p + k`; NULL is only ever advanced by 0. */
  function Advance(p: Ptr, k: nat): Ptr {
    match p
    case Null => Null
    case At(mem, offset) => At(mem, offset + k)
  }

  /** A non-NULL pointer with a zero unit at or after it: a C string. */
  predicate Terminated(p: Ptr) {
    && p.At?
    && exists k :: p.offset <= k < |p.mem| && p.mem[k] == 0
  }

  /** `strlen`/`wcslen`: the distance to the first zero unit. */
  function StrLen(p: Ptr): (n: nat)
    requires Terminated(p)
    ensures p.offset + n < |p.mem| && p.mem[p.offset + n] == 0
    ensures forall j :: p.offset <= j < p.offset + n ==> p.mem[j] != 0
    decreases |p.mem| - p.offset
  {
    if p.mem[p.offset] == 0 then 0 else 1 + StrLen(At(p.mem, p.offset + 1))
  }

  /** The units of a C string, without its terminator. */
  function CString(p: Ptr): (s: seq<int>)
    requires Terminated(p)
    ensures 0 !in s
  {
    var n := StrLen(p);
    p.mem[p.offset .. p.offset + n]
  }

  // ---------------------------------------------------------------------------
  // Construction

  /** The default constructor: a NULL pointer of length 0. */
  function Default(): (v: View)
    ensures Valid(v) && v.ptr.Null? && Content(v) == []
  {
    View(Null, 0)
  }

  /** The (pointer, size) constructor of the byte view: no sentinel, the size is stored as given. */
  function FromRaw(p: Ptr, size: int): (v: View)
    requires Valid(View(p, size))
    ensures Valid(v) && v.ptr == p && v.length == size
    ensures p.At? ==> Content(v) == p.mem[p.offset .. p.offset + size]
  {
    View(p, size)
  }

  /** The implicit C-string constructor: NULL gives the empty view, anything else is scanned. */
  function FromCString(p: Ptr): (v: View)
    requires p.Null? || Terminated(p)
    ensures Valid(v) && v.ptr == p
    ensures p.Null? ==> v.length == 0
    ensures p.At? ==> Content(v) == CString(p) && p.mem[p.offset + v.length] == 0
  {
    if p.Null? then View(p, 0) else View(p, StrLen(p))
  }

  /** The wide single-character constructor: a view of length 1 over the character's own storage. */
  function FromUnit(ch: int): (v: View)
    ensures Valid(v) && Content(v) == [ch]
  {
    View(At([ch], 0), 1)
  }

  /**
   The byte single-character constructor: the `FX_CHAR` is read back through a
   `const uint8_t*`, so the view holds its value as an unsigned byte.
   */
  function ByteFromUnit(ch: int): (v: View)
    ensures Valid(v) && Content(v) == [ch % 256] && ByteUnits(Content(v))
  {
    View(At([ch % 256], 0), 1)
  }

  /** A byte view of one character finds that character at position 0, whatever its sign. */
  lemma ByteUnitFoundByFind(ch: int)
    ensures ByteFind(ByteFromUnit(ch), ch) == 0
  {
  }

  /**
   The (pointer, length) constructor with the -1 sentinel: length -1 means
   "scan for the terminator", any other length is taken as given.
   */
  function FromPtrLen(p: Ptr, len: int): (v: View)
    requires len == -1 ==> Terminated(p)
    requires len != -1 ==> Valid(View(p, len))
    ensures Valid(v) && v.ptr == p
    ensures len == -1 ==> Content(v) == CString(p)
    ensures len != -1 ==> v.length == len
  {
    View(p, if len == -1 then StrLen(p) else len)
  }

  // ---------------------------------------------------------------------------
  // Queries

  function GetLength(v: View): (n: nat)
    requires Valid(v)
    ensures n == |Content(v)|
  {
    v.length
  }

  function IsEmpty(v: View): (r: bool)
    requires Valid(v)
    ensures r <==> Content(v) == []
  {
    v.length == 0
  }

  /** `GetAt`/`operator[]`: a read through the pointer, defined only inside the view. */
  function GetAt(v: View, index: int): (r: int)
    requires Valid(v) && 0 <= index < v.length
    ensures r == Content(v)[index]
  {
    v.ptr.mem[v.ptr.offset + index]
  }

  /** The `memchr`/`wmemchr` scan from position `i` on. */
  function IndexFrom(s: seq<int>, ch: int, i: nat): (r: int)
    requires i <= |s|
    ensures r == -1 || i <= r < |s|
    ensures r == -1 ==> forall j :: i <= j < |s| ==> s[j] != ch
    ensures r >= 0 ==> s[r] == ch && forall j :: i <= j < r ==> s[j] != ch
    decreases |s| - i
  {
    if i == |s| then -1
    else if s[i] == ch then i
    else IndexFrom(s, ch, i + 1)
  }

  /** The first position holding `unit`, or -1. */
  function FindUnit(v: View, unit: int): (r: int)
    requires Valid(v)
    ensures -1 <= r < GetLength(v)
    ensures r == -1 ==> forall j :: 0 <= j < GetLength(v) ==> Content(v)[j] != unit
    ensures r >= 0 ==> Content(v)[r] == unit && forall j :: 0 <= j < r ==> Content(v)[j] != unit
  {
    IndexFrom(Content(v), unit, 0)
  }

  /** CFX_ByteStringC::Find: `memchr` converts the needle to `unsigned char` first. */
  function ByteFind(v: View, ch: int): (r: int)
    requires Valid(v) && ByteUnits(Content(v))
    ensures -1 <= r < GetLength(v)
    ensures r == -1 ==> forall j :: 0 <= j < GetLength(v) ==> Content(v)[j] != ch % 256
    ensures r >= 0 ==> Content(v)[r] == ch % 256 && forall j :: 0 <= j < r ==> Content(v)[j] != ch % 256
  {
    FindUnit(v, ch % 256)
  }

  /** CFX_WideStringC::Find: `wmemchr` compares the wide unit as it is. */
  function WideFind(v: View, ch: int): (r: int)
    requires Valid(v)
    ensures -1 <= r < GetLength(v)
    ensures r == -1 ==> forall j :: 0 <= j < GetLength(v) ==> Content(v)[j] != ch
    ensures r >= 0 ==> Content(v)[r] == ch && forall j :: 0 <= j < r ==> Content(v)[j] != ch
  {
    FindUnit(v, ch)
  }

  // ---------------------------------------------------------------------------
  // Zero-copy slices

  /**
   `Mid(index, count)`: a negative `index` counts as 0 and an `index` past the
   end gives the default view; a negative or oversized `count` means "to the end".
   */
  function Mid(v: View, index: int, count: int): (r: View)
    requires Valid(v)
    ensures Valid(r) && Within(r, v)
    ensures index > v.length ==> r == Default()
    ensures index <= v.length ==>
              var first := if index < 0 then 0 else index;
              && r.ptr == Advance(v.ptr, first)
              && (0 <= count <= v.length - first ==> Content(r) == Content(v)[first .. first + count])
              && (count < 0 || count > v.length - first ==> Content(r) == Content(v)[first..])
  {
    var first := if index < 0 then 0 else index;
    if first > v.length then Default()
    else
      var n := if count < 0 || count > v.length - first then v.length - first else count;
      var r := View(Advance(v.ptr, first), n);
      if v.ptr.Null? then r
      else
        SliceOfSlice(v.ptr.mem, v.ptr.offset, v.ptr.offset + v.length, first, first + n);
        r
  }

  /** `Left(count)` of the wide view: the first `count` units, clamped; `count < 1` is empty. */
  function Left(v: View, count: int): (r: View)
    requires Valid(v)
    ensures Valid(r) && Within(r, v)
    ensures count < 1 ==> r == Default()
    ensures count >= 1 ==> r.ptr == v.ptr
    ensures 0 <= count <= v.length ==> Content(r) == Content(v)[..count]
    ensures count > v.length ==> Content(r) == Content(v)
  {
    if count < 1 then Default()
    else
      var n := if count > v.length then v.length else count;
      if v.ptr.Null? then View(v.ptr, n)
      else
        SliceOfSlice(v.ptr.mem, v.ptr.offset, v.ptr.offset + v.length, 0, n);
        View(v.ptr, n)
  }

  /** `Right(count)` of the wide view: the last `count` units, clamped; `count < 1` is empty. */
  function Right(v: View, count: int): (r: View)
    requires Valid(v)
    ensures Valid(r) && Within(r, v)
    ensures count < 1 ==> r == Default()
    ensures count >= 1 ==> r.ptr == Advance(v.ptr, v.length - (if count > v.length then v.length else count))
    ensures 0 <= count <= v.length ==> Content(r) == Content(v)[v.length - count..]
    ensures count > v.length ==> Content(r) == Content(v)
  {
    if count < 1 then Default()
    else
      var n := if count > v.length then v.length else count;
      var r := View(Advance(v.ptr, v.length - n), n);
      if v.ptr.Null? then r
      else
        SliceOfSlice(v.ptr.mem, v.ptr.offset, v.ptr.offset + v.length, v.length - n, v.length);
        r
  }

  /** `Left(n)` followed by `Right(L - n)` gives back the whole view. */
  lemma LeftRightSplit(v: View, n: int)
    requires Valid(v) && 0 <= n <= v.length
    ensures Content(Left(v, n)) + Content(Right(v, v.length - n)) == Content(v)
  {
    var s := Content(v);
    assert s[..n] + s[n..] == s;
  }

  /** `Mid(0, i)` and `Mid(i)` split the view at `i`. */
  lemma MidSplit(v: View, i: int)
    requires Valid(v) && 0 <= i <= v.length
    ensures Content(Mid(v, 0, i)) + Content(Mid(v, i, -1)) == Content(v)
  {
    var s := Content(v);
    assert s[0..i] + s[i..] == s;
  }

  /** A slice of a slice is a slice of the original with the offsets added. */
  lemma MidOfMid(v: View, i: int, c: int, j: int, d: int)
    requires Valid(v) && 0 <= i && 0 <= c && i + c <= v.length
    requires 0 <= j && 0 <= d && j + d <= c
    ensures Content(Mid(Mid(v, i, c), j, d)) == Content(Mid(v, i + j, d))
  {
    SliceOfSlice(Content(v), i, i + c, j, j + d);
  }

  // ---------------------------------------------------------------------------
  // Comparison

  /** `operator==` between views: equal lengths, then `memcmp` over that length. */
  function Equal(a: View, b: View): (r: bool)
    requires Valid(a) && Valid(b)
    ensures r <==> Content(a) == Content(b)
  {
    var ca, cb := Content(a), Content(b);
    assert ca[..a.length] == ca;
    b.length == a.length && MemCmp(cb, ca, a.length) == 0
  }

  /** `operator!=` between views: the negation of `==`. */
  function NotEqual(a: View, b: View): (r: bool)
    requires Valid(a) && Valid(b)
    ensures r <==> Content(a) != Content(b)
  {
    !Equal(a, b)
  }

  /** `operator==` against a C string: `strlen` must match, then `memcmp`. */
  function EqualCString(v: View, p: Ptr): (r: bool)
    requires Valid(v) && Terminated(p)
    ensures r <==> Content(v) == CString(p)
  {
    var cv, cp := Content(v), CString(p);
    assert cv[..v.length] == cv;
    StrLen(p) == v.length && MemCmp(cp, cv, v.length) == 0
  }

  /** `operator!=` against a C string: the negation of `==`; the free operators with the C string on the left delegate here. */
  function NotEqualCString(v: View, p: Ptr): (r: bool)
    requires Valid(v) && Terminated(p)
    ensures r <==> Content(v) != CString(p)
  {
    !EqualCString(v, p)
  }

  /** `operator<`: `memcmp` over the shorter length, then the shorter view first. */
  function Less(a: View, b: View): (r: bool)
    requires Valid(a) && Valid(b)
    ensures r <==> LexLess(Content(a), Content(b))
  {
    var ca, cb := Content(a), Content(b);
    MemCmpLessIsLexLess(ca, a.length, cb, b.length);
    assert ca[..a.length] == ca && cb[..b.length] == cb;
    MemCmpLess(ca, a.length, cb, b.length)
  }

  /** `operator<` on views is a strict total order, with `==` as its equality. */
  lemma LessIsStrictOrder(a: View, b: View, c: View)
    requires Valid(a) && Valid(b) && Valid(c)
    ensures !Less(a, a)
    ensures Less(a, b) && Less(b, c) ==> Less(a, c)
    ensures Equal(a, b) || Less(a, b) || Less(b, a)
    ensures Less(a, b) ==> !Less(b, a) && !Equal(a, b)
  {
    LexLessIrreflexive(Content(a));
    if Less(a, b) && Less(b, c) {
      LexLessTransitive(Content(a), Content(b), Content(c));
    }
    if !Equal(a, b) {
      LexLessConnected(Content(a), Content(b));
    }
    if Less(a, b) {
      LexLessAsymmetric(Content(a), Content(b));
    }
  }
}
