/**
 CFX_ByteString and CFX_WideString: owning strings whose `m_pData` is a
 reference-counted, copy-on-write pointer to a shared buffer.

 The heap is explicit. A `Store` holds a table of buffers (each with its
 reference count and units) and the `slots`: one handle per live string
 object, `NoBuffer` being the null `m_pData`. A string is named by its slot
 index. The reference count of every buffer equals the number of slots that
 hold it, so a buffer whose count is 1 is seen by one string only.

 Both widths share the model; `Kind` records which of the two a store holds
 where the header treats them differently.
 */
module SharedString {
  import opened LexOrder
  import SV = StringView

  datatype Kind = ByteKind | WideKind

  /** A shared buffer: its reference count and its units; the terminator is implicit. */
  datatype StringData = StringData(refs: nat, units: seq<int>)

  /** `m_pData`: null, or a buffer of the table. */
  datatype Handle = NoBuffer | Buffer(id: nat)

  datatype Store = Store(kind: Kind, table: map<nat, StringData>, slots: seq<Handle>, next: nat)

  /** Units a buffer of this width can hold: `uint8_t` values for a byte string, any `wchar_t` for a wide one. */
  predicate Fits(kind: Kind, u: seq<int>) {
    kind == ByteKind ==> SV.ByteUnits(u)
  }

  /**
   Every handle points into the table, every buffer in the table is held by
   exactly `refs` slots (at least one) and holds units of the store's width,
   and `next` is above every buffer id.
   */
  ghost predicate Valid(st: Store) {
    && (forall i :: 0 <= i < |st.slots| && st.slots[i].Buffer? ==> st.slots[i].id in st.table)
    && (forall id :: id in st.table ==>
          && id < st.next && 1 <= st.table[id].refs == multiset(st.slots)[Buffer(id)]
          && Fits(st.kind, st.table[id].units))
  }

  /** The units string `s` reads as; no buffer reads as empty. */
  function Content(st: Store, s: nat): (u: seq<int>)
    requires Valid(st) && s < |st.slots|
    ensures Fits(st.kind, u)
  {
    match st.slots[s]
    case NoBuffer => []
    case Buffer(id) => st.table[id].units
  }

  /** No other string can observe a write to `s`'s buffer. */
  ghost predicate Exclusive(st: Store, s: nat)
    requires Valid(st) && s < |st.slots|
  {
    st.slots[s].Buffer? ==> st.table[st.slots[s].id].refs == 1
  }

  /** Every string that existed in `st`, other than `s`, reads the same in `st'`. */
  ghost predicate OthersUnchanged(st: Store, st': Store, s: nat)
    requires Valid(st) && Valid(st')
  {
    && |st.slots| <= |st'.slots|
    && forall t :: 0 <= t < |st.slots| && t != s ==> Content(st', t) == Content(st, t)
  }

  /** A new string occupies a fresh slot at the end and leaves every old one as it was. */
  ghost predicate Appended(st: Store, st': Store, s: nat)
    requires Valid(st) && Valid(st')
  {
    && s == |st.slots| && |st'.slots| == s + 1
    && OthersUnchanged(st, st', s)
  }

  /** How a `FX_CHAR`/`FX_WCHAR` argument is stored: a byte buffer keeps it as `uint8_t`. */
  function UnitOf(kind: Kind, ch: int): int {
    if kind == ByteKind then ch % 256 else ch
  }

  // ---------------------------------------------------------------------------
  // Reference-count facts

  /** Two different slots holding the same buffer account for two references. */
  lemma TwoHolders(slots: seq<Handle>, i: nat, j: nat)
    requires i < |slots| && j < |slots| && i != j && slots[i] == slots[j]
    ensures multiset(slots)[slots[i]] >= 2
  {
    var lo, hi := if i < j then i else j, if i < j then j else i;
    assert slots == slots[..lo] + [slots[lo]] + slots[lo + 1 .. hi] + [slots[hi]] + slots[hi + 1..];
  }

  /** A buffer whose count is 1 is held by `s` alone. */
  lemma SoleHolder(st: Store, s: nat)
    requires Valid(st) && s < |st.slots| && st.slots[s].Buffer? && Exclusive(st, s)
    ensures forall t :: 0 <= t < |st.slots| && t != s ==> st.slots[t] != st.slots[s]
  {
    forall t | 0 <= t < |st.slots| && t != s && st.slots[t] == st.slots[s]
      ensures false
    {
      TwoHolders(st.slots, s, t);
    }
  }

  /** The copy constructor's table: the shared buffer gains a holder. */
  function Share(table: map<nat, StringData>, h: Handle): map<nat, StringData>
    requires h.Buffer? ==> h.id in table
  {
    match h
    case NoBuffer => table
    case Buffer(id) => table[id := table[id].(refs := table[id].refs + 1)]
  }

  /** `clear()`'s table: the buffer loses a holder and is freed with its last one. */
  function Release(table: map<nat, StringData>, id: nat): map<nat, StringData>
    requires id in table && table[id].refs >= 1
  {
    var d := table[id];
    if d.refs == 1 then table - {id} else table[id := d.(refs := d.refs - 1)]
  }

  /** `s` lets go of its buffer, if it has one: the slot is emptied and the buffer released. */
  function Unhold(st: Store, s: nat): Store
    requires Valid(st) && s < |st.slots|
  {
    match st.slots[s]
    case NoBuffer => st
    case Buffer(id) => st.(table := Release(st.table, id), slots := st.slots[s := NoBuffer])
  }

  /** The empty slot `s` takes a fresh buffer of its own holding `u`. */
  function Attach(st: Store, s: nat, u: seq<int>): Store
    requires s < |st.slots|
  {
    Store(st.kind, st.table[st.next := StringData(1, u)], st.slots[s := Buffer(st.next)], st.next + 1)
  }

  /** Letting go of a buffer keeps the counts right and changes what no other string reads. */
  lemma UnholdValid(st: Store, s: nat)
    requires Valid(st) && s < |st.slots|
    ensures Valid(Unhold(st, s))
    ensures forall t :: 0 <= t < |st.slots| && t != s ==> Content(Unhold(st, s), t) == Content(st, t)
  {
    if st.slots[s].Buffer? {
      if st.table[st.slots[s].id].refs == 1 {
        FreeValid(st, s);
      } else {
        DropValid(st, s);
      }
    }
  }

  /** The last holder letting go frees the buffer; no other slot held it. */
  lemma FreeValid(st: Store, s: nat)
    requires Valid(st) && s < |st.slots| && st.slots[s].Buffer? && st.table[st.slots[s].id].refs == 1
    ensures Valid(Unhold(st, s))
    ensures forall t :: 0 <= t < |st.slots| && t != s ==> Content(Unhold(st, s), t) == Content(st, t)
  {
    var h := st.slots[s];
    var st' := Unhold(st, s);
    SoleHolder(st, s);
    assert st'.table == st.table - {h.id};
    assert multiset(st'.slots) == multiset(st.slots) - multiset{h} + multiset{NoBuffer};
    forall i | 0 <= i < |st'.slots| && st'.slots[i].Buffer?
      ensures st'.slots[i].id in st'.table
    {
      assert st'.slots[i] == st.slots[i] != h;
    }
    forall t | 0 <= t < |st.slots| && t != s
      ensures Content(st', t) == Content(st, t)
    {
      assert st'.slots[t] == st.slots[t] != h;
    }
  }

  /** A holder letting go of a shared buffer leaves it one holder fewer. */
  lemma DropValid(st: Store, s: nat)
    requires Valid(st) && s < |st.slots| && st.slots[s].Buffer? && st.table[st.slots[s].id].refs >= 2
    ensures Valid(Unhold(st, s))
    ensures forall t :: 0 <= t < |st.slots| && t != s ==> Content(Unhold(st, s), t) == Content(st, t)
  {
    var h := st.slots[s];
    var st' := Unhold(st, s);
    assert st'.table == st.table[h.id := st.table[h.id].(refs := st.table[h.id].refs - 1)];
    assert multiset(st'.slots) == multiset(st.slots) - multiset{h} + multiset{NoBuffer};
    forall i | 0 <= i < |st'.slots| && st'.slots[i].Buffer?
      ensures st'.slots[i].id in st'.table
    {
      assert st'.slots[i] == st.slots[i];
    }
    forall t | 0 <= t < |st.slots| && t != s
      ensures Content(st', t) == Content(st, t)
    {
      assert st'.slots[t] == st.slots[t];
    }
  }

  /** Giving an empty slot a fresh buffer keeps the counts right and changes what no other string reads. */
  lemma AttachValid(st: Store, s: nat, u: seq<int>)
    requires Valid(st) && s < |st.slots| && st.slots[s] == NoBuffer && Fits(st.kind, u)
    ensures Valid(Attach(st, s, u))
    ensures forall t :: 0 <= t < |st.slots| && t != s ==> Content(Attach(st, s, u), t) == Content(st, t)
  {
    var st', newId := Attach(st, s, u), st.next;
    assert Buffer(newId) !in st.slots;
    assert multiset(st'.slots) == multiset(st.slots) - multiset{NoBuffer} + multiset{Buffer(newId)};
    forall i | 0 <= i < |st'.slots| && st'.slots[i].Buffer?
      ensures st'.slots[i].id in st'.table
    {
      assert i != s ==> st'.slots[i] == st.slots[i];
    }
    forall id | id in st'.table
      ensures id < st'.next && 1 <= st'.table[id].refs == multiset(st'.slots)[Buffer(id)]
      ensures Fits(st'.kind, st'.table[id].units)
    {
      if id != newId {
        assert st'.table[id] == st.table[id];
      }
    }
    forall t | 0 <= t < |st.slots| && t != s
      ensures Content(st', t) == Content(st, t)
    {
      assert st'.slots[t] == st.slots[t];
    }
  }

  /** A new slot sharing `src`'s buffer, counted once more, keeps the counts right. */
  lemma ShareValid(st: Store, src: nat)
    requires Valid(st) && src < |st.slots|
    ensures Valid(st.(table := Share(st.table, st.slots[src]), slots := st.slots + [st.slots[src]]))
  {
    var h := st.slots[src];
    var st' := st.(table := Share(st.table, h), slots := st.slots + [h]);
    assert multiset(st'.slots) == multiset(st.slots) + multiset{h};
    forall i | 0 <= i < |st'.slots| && st'.slots[i].Buffer?
      ensures st'.slots[i].id in st'.table
    {
      assert i < |st.slots| ==> st'.slots[i] == st.slots[i];
    }
    forall id | id in st'.table
      ensures id < st'.next && 1 <= st'.table[id].refs == multiset(st'.slots)[Buffer(id)]
      ensures Fits(st'.kind, st'.table[id].units)
    {
      if h == Buffer(id) {
      } else {
        assert st'.table[id] == st.table[id];
      }
    }
  }

  /** Handing `src`'s buffer to a new slot and leaving `src` empty keeps the counts right. */
  lemma MoveValid(st: Store, src: nat)
    requires Valid(st) && src < |st.slots|
    ensures Valid(st.(slots := st.slots[src := NoBuffer] + [st.slots[src]]))
  {
  }

  // ---------------------------------------------------------------------------
  // Construction, copy, move, release

  /** The default constructor: no buffer. */
  function NewEmpty(st: Store): (res: (Store, nat))
    requires Valid(st)
    ensures Valid(res.0) && Appended(st, res.0, res.1)
    ensures res.0.table == st.table && res.0.slots[res.1] == NoBuffer
    ensures Content(res.0, res.1) == []
  {
    (st.(slots := st.slots + [NoBuffer]), |st.slots|)
  }

  /** The copy constructor: the new string holds the same buffer, whose count goes up by one. */
  function CopyConstruct(st: Store, src: nat): (res: (Store, nat))
    requires Valid(st) && src < |st.slots|
    ensures Valid(res.0) && Appended(st, res.0, res.1)
    ensures res.0.slots[res.1] == st.slots[src]
    ensures Content(res.0, res.1) == Content(st, src)
    ensures res.0.table.Keys == st.table.Keys
    ensures forall id :: id in st.table ==> res.0.table[id].units == st.table[id].units
    ensures st.slots[src].Buffer? ==>
              res.0.table[st.slots[src].id].refs == st.table[st.slots[src].id].refs + 1
  {
    ShareValid(st, src);
    (st.(table := Share(st.table, st.slots[src]), slots := st.slots + [st.slots[src]]), |st.slots|)
  }

  /** The move constructor: the buffer changes hands, the source is left without one. */
  function MoveConstruct(st: Store, src: nat): (res: (Store, nat))
    requires Valid(st) && src < |st.slots|
    ensures Valid(res.0) && |res.0.slots| == |st.slots| + 1 && res.1 == |st.slots|
    ensures res.0.table == st.table
    ensures res.0.slots[res.1] == st.slots[src] && res.0.slots[src] == NoBuffer
    ensures Content(res.0, res.1) == Content(st, src) && Content(res.0, src) == []
    ensures OthersUnchanged(st, res.0, src)
  {
    MoveValid(st, src);
    (st.(slots := st.slots[src := NoBuffer] + [st.slots[src]]), |st.slots|)
  }

  /** `clear()` and the destructor: drop the reference; the last one frees the buffer. */
  function Clear(st: Store, s: nat): (st': Store)
    requires Valid(st) && s < |st.slots|
    ensures Valid(st') && |st'.slots| == |st.slots|
    ensures st'.slots[s] == NoBuffer && Content(st', s) == []
    ensures OthersUnchanged(st, st', s)
    ensures st.slots[s].Buffer? ==>
              var id := st.slots[s].id;
              && (st.table[id].refs == 1 ==> id !in st'.table)
              && (st.table[id].refs > 1 ==> id in st'.table && st'.table[id].refs == st.table[id].refs - 1)
  {
    match st.slots[s]
    case NoBuffer => st
    case Buffer(id) =>
      UnholdValid(st, s);
      Unhold(st, s)
  }

  /** A string built from foreign units: a buffer of its own, or none when there is nothing to hold. */
  function ConstructFrom(st: Store, units: seq<int>): (res: (Store, nat))
    requires Valid(st) && Fits(st.kind, units)
    ensures Valid(res.0) && Appended(st, res.0, res.1)
    ensures Content(res.0, res.1) == units && Exclusive(res.0, res.1)
    ensures forall id :: id in st.table ==> id in res.0.table && res.0.table[id] == st.table[id]
  {
    if units == [] then NewEmpty(st)
    else
      var (st1, s) := NewEmpty(st);
      AttachValid(st1, s, units);
      (Attach(st1, s, units), s)
  }

  /** The constructor from a view: a private copy of the viewed units. */
  function FromView(st: Store, v: SV.View): (res: (Store, nat))
    requires Valid(st) && SV.Valid(v) && Fits(st.kind, SV.Content(v))
    ensures Valid(res.0) && Appended(st, res.0, res.1)
    ensures Content(res.0, res.1) == SV.Content(v) && Exclusive(res.0, res.1)
  {
    ConstructFrom(st, SV.Content(v))
  }

  /** The single-character constructor. */
  function FromChar(st: Store, ch: int): (res: (Store, nat))
    requires Valid(st)
    ensures Valid(res.0) && Appended(st, res.0, res.1)
    ensures Content(res.0, res.1) == [UnitOf(st.kind, ch)] && Exclusive(res.0, res.1)
  {
    ConstructFrom(st, [UnitOf(st.kind, ch)])
  }

  /** The two-view constructor, which every `operator+` ends in: the first view's units, then the second's. */
  function FromViews(st: Store, v1: SV.View, v2: SV.View): (res: (Store, nat))
    requires Valid(st) && SV.Valid(v1) && SV.Valid(v2)
    requires Fits(st.kind, SV.Content(v1)) && Fits(st.kind, SV.Content(v2))
    ensures Valid(res.0) && Appended(st, res.0, res.1)
    ensures Content(res.0, res.1) == SV.Content(v1) + SV.Content(v2) && Exclusive(res.0, res.1)
  {
    ConstructFrom(st, SV.Content(v1) + SV.Content(v2))
  }

  // ---------------------------------------------------------------------------
  // Read-only accessors

  /** `GetLength()`: the stored length, 0 when there is no buffer. */
  function GetLength(st: Store, s: nat): (n: nat)
    requires Valid(st) && s < |st.slots|
    ensures n == |Content(st, s)|
    ensures st.slots[s].NoBuffer? ==> n == 0
  {
    match st.slots[s]
    case NoBuffer => 0
    case Buffer(id) => |st.table[id].units|
  }

  function IsEmpty(st: Store, s: nat): (r: bool)
    requires Valid(st) && s < |st.slots|
    ensures r <==> Content(st, s) == []
  {
    GetLength(st, s) == 0
  }

  /** `c_str()`: the buffer's terminated units, or the static empty string. */
  function CStr(st: Store, s: nat): (r: seq<int>)
    requires Valid(st) && s < |st.slots|
    ensures |r| == GetLength(st, s) + 1 && r[GetLength(st, s)] == 0
    ensures r[..GetLength(st, s)] == Content(st, s)
  {
    var r := match st.slots[s]
      case NoBuffer => [0]
      case Buffer(id) => st.table[id].units + [0];
    assert r[..|r| - 1] == Content(st, s);
    r
  }

  /**
   `GetAt`/`operator[]`: without a buffer every index reads 0; with one the
   read goes through the terminated buffer, so the index may reach the terminator.
   */
  function GetAt(st: Store, s: nat, index: int): (r: int)
    requires Valid(st) && s < |st.slots|
    requires st.slots[s].Buffer? ==> 0 <= index <= GetLength(st, s)
    ensures st.slots[s].NoBuffer? ==> r == 0
    ensures index == GetLength(st, s) ==> r == 0
    ensures st.kind == ByteKind ==> 0 <= r < 256
    ensures 0 <= index < GetLength(st, s) ==> r == Content(st, s)[index]
  {
    match st.slots[s]
    case NoBuffer => 0
    case Buffer(id) => CStr(st, s)[index]
  }

  /**
   `AsStringC()`: a view over the buffer's terminated units. Without a buffer
   the byte string passes `raw_str()`, which is NULL, and the wide string
   passes `c_str()`, which is the static empty wide string.
   */
  function AsStringC(st: Store, s: nat): (v: SV.View)
    requires Valid(st) && s < |st.slots|
    ensures SV.Valid(v) && SV.Content(v) == Content(st, s) && SV.GetLength(v) == GetLength(st, s)
    ensures st.slots[s].Buffer? ==> v.ptr == SV.At(CStr(st, s), 0)
    ensures st.slots[s].NoBuffer? && st.kind == ByteKind ==> v.ptr == SV.Null
    ensures st.slots[s].NoBuffer? && st.kind == WideKind ==> v.ptr == SV.At([0], 0)
  {
    var c := CStr(st, s);
    var raw := if st.slots[s].NoBuffer? && st.kind == ByteKind then SV.Null else SV.At(c, 0);
    SV.View(raw, GetLength(st, s))
  }

  /** `operator<`: `memcmp` of the two `c_str()`s over the shorter length, then the shorter first. */
  function Less(st: Store, a: nat, b: nat): (r: bool)
    requires Valid(st) && a < |st.slots| && b < |st.slots|
    ensures r <==> LexLess(Content(st, a), Content(st, b))
  {
    var ca, cb := CStr(st, a), CStr(st, b);
    var la, lb := GetLength(st, a), GetLength(st, b);
    MemCmpLessIsLexLess(ca, la, cb, lb);
    MemCmpLess(ca, la, cb, lb)
  }

  /** The owning strings' `operator<` is the views' `operator<` on `AsStringC()`. */
  lemma LessAgreesWithViews(st: Store, a: nat, b: nat)
    requires Valid(st) && a < |st.slots| && b < |st.slots|
    ensures Less(st, a, b) <==> SV.Less(AsStringC(st, a), AsStringC(st, b))
  {
  }

  /** `operator<` on owning strings is a strict total order on their contents. */
  lemma LessIsStrictOrder(st: Store, a: nat, b: nat, c: nat)
    requires Valid(st) && a < |st.slots| && b < |st.slots| && c < |st.slots|
    ensures !Less(st, a, a)
    ensures Less(st, a, b) && Less(st, b, c) ==> Less(st, a, c)
    ensures Content(st, a) == Content(st, b) || Less(st, a, b) || Less(st, b, a)
    ensures Less(st, a, b) ==> !Less(st, b, a)
  {
    SV.LessIsStrictOrder(AsStringC(st, a), AsStringC(st, b), AsStringC(st, c));
  }

  /** A string with no buffer reads as empty everywhere. */
  lemma EmptyStringReads(st: Store, index: int)
    requires Valid(st)
    ensures var (st', s) := NewEmpty(st);
            && GetLength(st', s) == 0 && IsEmpty(st', s)
            && CStr(st', s) == [0]
            && GetAt(st', s, index) == 0
            && SV.Content(AsStringC(st', s)) == []
  {
  }

  // ---------------------------------------------------------------------------
  // `operator+`

  /** An argument of an `operator+` overload. */
  datatype Operand =
    | OView(v: SV.View)     // CFX_ByteStringC / CFX_WideStringC
    | OCString(p: SV.Ptr)   // const FX_CHAR* / const FX_WCHAR*
    | OChar(ch: int)        // FX_CHAR / FX_WCHAR
    | OString(s: nat)       // CFX_ByteString / CFX_WideString

  predicate OperandValid(st: Store, o: Operand) {
    match o
    case OView(v) => SV.Valid(v) && Fits(st.kind, SV.Content(v))
    case OCString(p) => p.Null? || (SV.Terminated(p) && Fits(st.kind, SV.CString(p)))
    case OChar(_) => true
    case OString(s) => s < |st.slots|
  }

  /** The units an argument contributes. */
  function OperandUnits(st: Store, o: Operand): (u: seq<int>)
    requires Valid(st) && OperandValid(st, o)
    ensures Fits(st.kind, u)
  {
    match o
    case OView(v) => SV.Content(v)
    case OCString(p) => if p.Null? then [] else SV.CString(p)
    case OChar(ch) => [UnitOf(st.kind, ch)]
    case OString(s) => Content(st, s)
  }

  /**
   The twelve overloads: every pairing in which at least one side is a view or
   an owning string (two C strings, two characters, or a character and a C
   string have no overload).
   */
  predicate IsOverload(x: Operand, y: Operand) {
    x.OView? || x.OString? || y.OView? || y.OString?
  }

  /** The view each argument is turned into before the two-view constructor runs. */
  function OperandView(st: Store, o: Operand): (v: SV.View)
    requires Valid(st) && OperandValid(st, o)
    ensures SV.Valid(v) && SV.Content(v) == OperandUnits(st, o)
  {
    match o
    case OView(v) => v
    case OCString(p) => SV.FromCString(p)
    case OChar(ch) => if st.kind == ByteKind then SV.ByteFromUnit(ch) else SV.FromUnit(ch)
    case OString(s) => AsStringC(st, s)
  }

  /** `x + y`: whatever the overload, the result is a new string holding `x`'s units then `y`'s. */
  function Plus(st: Store, x: Operand, y: Operand): (res: (Store, nat))
    requires Valid(st) && IsOverload(x, y) && OperandValid(st, x) && OperandValid(st, y)
    ensures Valid(res.0) && Appended(st, res.0, res.1) && Exclusive(res.0, res.1)
    ensures Content(res.0, res.1) == OperandUnits(st, x) + OperandUnits(st, y)
    ensures GetLength(res.0, res.1) == |OperandUnits(st, x)| + |OperandUnits(st, y)|
  {
    var vx, vy := OperandView(st, x), OperandView(st, y);
    FromViews(st, vx, vy)
  }

  // ---------------------------------------------------------------------------
  // Copy-on-write mutation

  /**
   The step every mutator takes before writing: a shared buffer is left to its
   other holders and `s` gets a private copy. Nothing reads differently afterwards.
   */
  function MakeExclusive(st: Store, s: nat): (st': Store)
    requires Valid(st) && s < |st.slots|
    ensures Valid(st') && |st'.slots| == |st.slots| && Exclusive(st', s)
    ensures forall t :: 0 <= t < |st.slots| ==> Content(st', t) == Content(st, t)
    ensures forall t :: 0 <= t < |st.slots| && t != s ==> st'.slots[t] == st.slots[t]
    ensures Exclusive(st, s) ==> st' == st
  {
    match st.slots[s]
    case NoBuffer => st
    case Buffer(id) =>
      var d := st.table[id];
      if d.refs == 1 then st
      else
        var st1 := Unhold(st, s);
        UnholdValid(st, s);
        AttachValid(st1, s, d.units);
        Attach(st1, s, d.units)
  }

  /** Overwriting the units of a buffer keeps the store valid when the new units fit. */
  lemma RewriteValid(st: Store, id: nat, u: seq<int>)
    requires Valid(st) && id in st.table && Fits(st.kind, u)
    ensures Valid(st.(table := st.table[id := st.table[id].(units := u)]))
  {
  }

  /** The write itself, on a string no one else can see: only `s` changes. */
  function EditOwned(st: Store, s: nat, edit: seq<int> -> seq<int>): (st': Store)
    requires Valid(st) && s < |st.slots| && Exclusive(st, s) && Fits(st.kind, edit(Content(st, s)))
    ensures Valid(st') && |st'.slots| == |st.slots| && Exclusive(st', s)
    ensures Content(st', s) == edit(Content(st, s))
    ensures OthersUnchanged(st, st', s)
  {
    match st.slots[s]
    case NoBuffer =>
      var u := edit([]);
      if u == [] then st
      else
        AttachValid(st, s, u);
        Attach(st, s, u)
    case Buffer(id) =>
      SoleHolder(st, s);
      var d := st.table[id];
      RewriteValid(st, id, edit(d.units));
      st.(table := st.table[id := d.(units := edit(d.units))])
  }

  /**
   A mutator (`SetAt`, `Insert`, `Delete`, `+=`, `MakeLower`/`MakeUpper`, the
   trims, `Replace`, `Remove`): clone if shared, then edit the private copy.
   `edit` is the mutator's effect on the units.
   */
  function Mutate(st: Store, s: nat, edit: seq<int> -> seq<int>): (st': Store)
    requires Valid(st) && s < |st.slots| && Fits(st.kind, edit(Content(st, s)))
    ensures Valid(st') && |st'.slots| == |st.slots| && Exclusive(st', s)
    ensures Content(st', s) == edit(Content(st, s))
    ensures OthersUnchanged(st, st', s)
  {
    EditOwned(MakeExclusive(st, s), s, edit)
  }

  /** `SetAt(index, ch)`: the unit at `index` becomes `ch`, nothing else changes. */
  function SetAt(st: Store, s: nat, index: int, ch: int): (st': Store)
    requires Valid(st) && s < |st.slots| && 0 <= index < GetLength(st, s)
    ensures Valid(st') && |st'.slots| == |st.slots|
    ensures GetLength(st', s) == GetLength(st, s)
    ensures GetAt(st', s, index) == UnitOf(st.kind, ch)
    ensures forall i :: 0 <= i < GetLength(st, s) && i != index ==> GetAt(st', s, i) == GetAt(st, s, i)
    ensures OthersUnchanged(st, st', s)
  {
    var unit := UnitOf(st.kind, ch);
    Mutate(st, s, u => if 0 <= index < |u| then u[index := unit] else u)
  }

  /** `+=` with a view (and, through `AsStringC`, with a string or a C string): the view's units are appended. */
  function AppendView(st: Store, s: nat, v: SV.View): (st': Store)
    requires Valid(st) && s < |st.slots| && SV.Valid(v) && Fits(st.kind, SV.Content(v))
    ensures Valid(st') && |st'.slots| == |st.slots|
    ensures Content(st', s) == Content(st, s) + SV.Content(v)
    ensures OthersUnchanged(st, st', s)
  {
    var tail := SV.Content(v);
    Mutate(st, s, u => u + tail)
  }

  /** `+=` with a single character. */
  function AppendChar(st: Store, s: nat, ch: int): (st': Store)
    requires Valid(st) && s < |st.slots|
    ensures Valid(st') && |st'.slots| == |st.slots|
    ensures Content(st', s) == Content(st, s) + [UnitOf(st.kind, ch)]
    ensures OthersUnchanged(st, st', s)
  {
    var unit := UnitOf(st.kind, ch);
    Mutate(st, s, u => u + [unit])
  }

  /** After `b` is copied from `a`, a write through either one leaves the other as it was. */
  lemma CopyOnWriteIsolation(st: Store, a: nat, edit: seq<int> -> seq<int>)
    requires Valid(st) && a < |st.slots| && Fits(st.kind, edit(Content(st, a)))
    ensures var (st1, b) := CopyConstruct(st, a);
            && Content(Mutate(st1, b, edit), a) == Content(st, a)
            && Content(Mutate(st1, b, edit), b) == edit(Content(st, a))
            && Content(Mutate(st1, a, edit), b) == Content(st, a)
            && Content(Mutate(st1, a, edit), a) == edit(Content(st, a))
  {
  }
}
