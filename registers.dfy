/** The registers of `sbp.py`, `old/sbp.py` and `sbp_register.py`: a store object wraps a
    dictionary that is an attribute of the class, so every store object reads and writes the same
    dictionary. In `sbp.py` and `old/sbp.py` the class name is later rebound to a command class,
    but the global stores were made from the dictionary class before that. */
module Registers {
  import opened Wrappers
  import opened Text
  import MarkCommands

  /** What a register holds: text, or the view, window and region put there by point-to-register. */
  datatype Value = Text(text: string) | Position(view: int, window: int, region: Region)

  /** The class-level `registers` dictionary. */
  class RegisterDict {
    var entries: map<string, Value>

    constructor ()
      ensures entries == map[]
    {
      entries := map[];
    }
  }

  /** A store object: every instance refers to the one dictionary of its class. */
  class RegisterStore {
    const dict: RegisterDict

    constructor (d: RegisterDict)
      ensures dict == d
    {
      dict := d;
    }

    /** `get`: the stored value, or empty text for a key never stored. */
    function Get(key: string): (r: Value)
      reads this, dict
      ensures key in dict.entries ==> r == dict.entries[key]
      ensures key !in dict.entries ==> r == Text("")
    {
      if key in dict.entries then dict.entries[key] else Text("")
    }

    /** `__contains__`. */
    predicate Contains(key: string)
      reads this, dict
    {
      key in dict.entries
    }

    /** `store`: afterwards the key is present and reads back `val`; no other key changes. */
    method Store(key: string, val: Value)
      modifies dict
      ensures dict.entries == old(dict.entries)[key := val]
      ensures Contains(key) && Get(key) == val
      ensures forall k :: k != key ==> Get(k) == old(Get(k))
    {
      dict.entries := dict.entries[key := val];
    }
  }

  /** Two store objects of the class share their dictionary: a value stored through one is read
      back through the other. */
  method StoreThroughOther(a: RegisterStore, b: RegisterStore, key: string, val: Value)
    requires a.dict == b.dict
    modifies a.dict
    ensures b.Contains(key) && b.Get(key) == val
  {
    a.Store(key, val);
  }

  /** Register-store (`sbp.py`, `old/sbp.py`): with exactly one cursor, the text it selects is
      stored and then cancel-mark runs, which erases the mark and leaves one empty cursor at
      the end of the first mark region when there was a mark. */
  method StoreSelection(store: RegisterStore, buf: string, view: MarkCommands.MarkView, key: string)
    modifies store.dict, view
    ensures |old(view.sel)| != 1 ==>
      store.dict.entries == old(store.dict.entries) && view.sel == old(view.sel) && view.mark == old(view.mark)
    ensures |old(view.sel)| == 1 ==>
      store.dict.entries == old(store.dict.entries)[key := Text(Substr(buf, old(view.sel)[0]))]
    ensures |old(view.sel)| == 1 && old(view.mark) == [] ==> view.sel == old(view.sel) && view.mark == []
    ensures |old(view.sel)| == 1 && old(view.mark) != [] ==>
      view.mark == [] && view.sel == [Point(old(view.mark)[0].End())]
  {
    var sel := view.sel;
    if |sel| != 1 {
      return;
    }
    store.Store(key, Text(Substr(buf, sel[0])));
    view.CancelMark();
  }

  /** Insert-from-register (`sbp.py`, `old/sbp.py`): with one cursor and a stored key, the
      selection is replaced by the text and a single cursor follows it. A stored position is no
      text and the replace raises (`raised`). */
  method InsertFromRegister(store: RegisterStore, buf: string, sel: seq<Region>, key: string)
    returns (after: string, newSel: seq<Region>, raised: bool)
    requires |sel| == 1 ==> 0 <= sel[0].Begin() && sel[0].End() <= |buf|
    ensures raised <==> |sel| == 1 && store.Contains(key) && store.Get(key).Position?
    ensures |sel| != 1 || !store.Contains(key) || raised ==> after == buf && newSel == sel
    ensures |sel| == 1 && store.Contains(key) && !raised ==>
      var t := store.Get(key).text;
      var b := sel[0].Begin();
      after == buf[..b] + t + buf[sel[0].End()..] && newSel == [Point(b + |t|)]
      && after[b..b + |t|] == t
  {
    after, newSel, raised := buf, sel, false;
    if |sel| != 1 {
      return;
    }
    var begin := sel[0].Begin();
    if !store.Contains(key) {
      return;
    }
    var cnt := store.Get(key);
    if cnt.Position? {
      raised := true;
      return;
    }
    after := buf[..begin] + cnt.text + buf[sel[0].End()..];
    newSel := [Point(begin + |cnt.text|)];
  }

  /** Point-to-register (`sbp_register.py`, `old/sbp.py`): with one cursor, its view, window
      and region go into `sbp_point_register`. */
  method PointToRegister(pointStore: RegisterStore, view: int, window: int, sel: seq<Region>, key: string)
    modifies pointStore.dict
    ensures |sel| != 1 ==> pointStore.dict.entries == old(pointStore.dict.entries)
    ensures |sel| == 1 ==>
      pointStore.dict.entries == old(pointStore.dict.entries)[key := Position(view, window, sel[0])]
  {
    if |sel| != 1 {
      return;
    }
    pointStore.Store(key, Position(view, window, sel[0]));
  }

  /** Where point-from-register goes: nowhere for an unknown key, to a stored position, or an
      error for stored text (its third character is no record). */
  datatype Jump = NoRegister | JumpTo(view: int, region: Region) | Raised

  /** Point-from-register reads `sbp_registers`, not `sbp_point_register`. */
  function PointFromRegister(registers: RegisterStore, key: string): (r: Jump)
    reads registers, registers.dict
    ensures r == NoRegister <==> !registers.Contains(key)
    ensures r.JumpTo? <==> registers.Contains(key) && registers.Get(key).Position?
    ensures r.JumpTo? ==> r.view == registers.Get(key).view && r.region == registers.Get(key).region
  {
    if !registers.Contains(key) then NoRegister
    else match registers.Get(key)
      case Position(v, _, region) => JumpTo(v, region)
      case Text(_) => Raised
  }

  /** The jump works only because the two stores share their dictionary: a point stored
      through `sbp_point_register` is found through `sbp_registers`. */
  method PointRoundTrip(registers: RegisterStore, pointStore: RegisterStore, view: int, window: int,
                        cursor: Region, key: string) returns (r: Jump)
    requires registers.dict == pointStore.dict
    modifies pointStore.dict
    ensures r == JumpTo(view, cursor)
  {
    PointToRegister(pointStore, view, window, [cursor], key);
    r := PointFromRegister(registers, key);
  }

  /** `sbp_register.py` insert: the content handed to do-insert is the stored text, empty for
      an unknown key; a stored position cannot be passed on (`None`). */
  function InsertContent(registers: RegisterStore, key: string): (r: Option<string>)
    reads registers, registers.dict
    ensures r.Some? <==> registers.Get(key).Text?
    ensures !registers.Contains(key) ==> r == Some("")
    ensures registers.Contains(key) && r.Some? ==> r.value == registers.dict.entries[key].text
  {
    match registers.Get(key)
    case Text(t) => Some(t)
    case Position(_, _, _) => None
  }

  /** Do-insert (`sbp_register.py`): the content goes in at the point and a single empty cursor
      is left right after it. */
  function DoInsert(buf: string, point: int, content: string): (r: (string, seq<Region>))
    requires 0 <= point <= |buf|
    ensures |r.0| == |buf| + |content|
    ensures r.0[..point] == buf[..point] && r.0[point..point + |content|] == content
    ensures r.0[point + |content|..] == buf[point..]
    ensures r.1 == [Point(point + |content|)]
  {
    (buf[..point] + content + buf[point..], [Point(point + |content|)])
  }
}
