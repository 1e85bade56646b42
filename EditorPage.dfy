/**
 The client-side state of client/src/pages/EditorPage.tsx: the local text
 buffer, the map of other users' selections with the decorations derived from
 it, and the page's own five-colour assigner `getUserColor`.
 */
module EditorPage {
  import opened Prelude

  // ----- selections and decorations -----

  /** A selection range, kept as the four coordinates the page reads from it. */
  datatype Range = Range(startLineNumber: int, startColumn: int, endLineNumber: int, endColumn: int)

  /** The `{ range, color }` value stored per user. */
  datatype Selection = Selection(range: Range, color: string)

  /**
   One property of `userSelections`. The object is an association list:
   JavaScript keeps its string keys in insertion order, and the spread copy
   `{ ...prev, [userId]: v }` keeps that order.
   */
  datatype Entry = Entry(userId: string, selection: Selection)

  /** What the page hands the editor per entry: a range and a CSS class. */
  datatype Decoration = Decoration(range: Range, inlineClassName: string)

  /** The page's replica state: the `code` buffer and `userSelections`. */
  datatype View = View(code: string, userSelections: seq<Entry>)

  /** The state at mount: `useState("")` and `useState({})`. */
  const InitialView: View := View("", [])

  /** The prefix of every highlight class name. */
  const HighlightPrefix: string := "highlight-"

  /** Some entry has this key. */
  ghost predicate HasKey(s: seq<Entry>, k: string)
  {
    exists i :: 0 <= i < |s| && s[i].userId == k
  }

  /**
   No key occurs twice (an object never has two properties of one name): like
   `Roster.UniqueIds`, this is distinctness of the keys, not of the entries.
   `HasKey` is the specification that `Lookup`, the executable read, is proved
   against.
   */
  ghost predicate UniqueKeys(s: seq<Entry>)
  {
    forall i, j :: 0 <= i < j < |s| ==> s[i].userId != s[j].userId
  }

  /** The set of keys. */
  ghost function KeySet(s: seq<Entry>): set<string>
  {
    set e | e in s :: e.userId
  }

  /** `userSelections[k]`. */
  function Lookup(s: seq<Entry>, k: string): (r: Option<Selection>)
    ensures r.Some? <==> HasKey(s, k)
    ensures r.Some? ==> exists i :: 0 <= i < |s| && s[i] == Entry(k, r.value)
  {
    if s == [] then None
    else if s[0].userId == k then Some(s[0].selection)
    else
      var r := Lookup(s[1..], k);
      assert forall i :: 0 < i < |s| ==> s[i] == s[1..][i - 1];
      r
  }

  /**
   `{ ...prev, [k]: v }`: an existing key is overwritten where it stands, a new
   key is appended at the end.
   */
  function Put(s: seq<Entry>, k: string, v: Selection): (r: seq<Entry>)
    ensures HasKey(r, k)
    ensures |r| == if HasKey(s, k) then |s| else |s| + 1
  {
    if s == [] then
      assert [Entry(k, v)][0].userId == k;
      [Entry(k, v)]
    else if s[0].userId == k then
      assert ([Entry(k, v)] + s[1..])[0].userId == k;
      [Entry(k, v)] + s[1..]
    else
      var t := Put(s[1..], k, v);
      assert forall i :: 0 < i < |s| ==> s[i] == s[1..][i - 1];
      HasKeyCons(s[0], t, k);
      [s[0]] + t
  }

  /** A key of the tail is a key of the whole list. */
  lemma HasKeyCons(e: Entry, t: seq<Entry>, k: string)
    ensures HasKey(t, k) ==> HasKey([e] + t, k)
  {
    if HasKey(t, k) {
      var i :| 0 <= i < |t| && t[i].userId == k;
      assert ([e] + t)[i + 1] == t[i];
    }
  }

  /** One decoration: the four coordinates copied, the class `highlight-<color>`. */
  function Decorate(sel: Selection): (d: Decoration)
    ensures d.range.startLineNumber == sel.range.startLineNumber
    ensures d.range.startColumn == sel.range.startColumn
    ensures d.range.endLineNumber == sel.range.endLineNumber
    ensures d.range.endColumn == sel.range.endColumn
    ensures |d.inlineClassName| == |HighlightPrefix| + |sel.color|
    ensures d.inlineClassName[..|HighlightPrefix|] == HighlightPrefix
    ensures d.inlineClassName[|HighlightPrefix|..] == sel.color
  {
    var r := sel.range;
    Decoration(Range(r.startLineNumber, r.startColumn, r.endLineNumber, r.endColumn),
               HighlightPrefix + sel.color)
  }

  /**
   `Object.entries(userSelections).map(...)`: one decoration per entry, in key
   order, with that entry's range and the class `highlight-<color>`.
   */
  function Decorations(s: seq<Entry>): (d: seq<Decoration>)
    ensures |d| == |s|
    ensures forall i :: 0 <= i < |s| ==>
              d[i].range == s[i].selection.range && d[i].inlineClassName == HighlightPrefix + s[i].selection.color
  {
    seq(|s|, i requires 0 <= i < |s| => Decorate(s[i].selection))
  }

  // ----- inbound and local events -----

  /** Inbound `text-update`: `setCode(data)`. */
  function OnTextUpdate(v: View, data: string): (r: View)
    ensures r.code == data
    ensures r.userSelections == v.userSelections
  {
    v.(code := data)
  }

  /** What a local edit does: the new view and the payload sent as `text-update`. */
  datatype Change = Change(view: View, outbound: Option<string>)

  /**
   `handleEditorChange(value)`: the buffer becomes `value || ""`, and `value`
   itself, possibly undefined, is emitted.
   */
  function HandleEditorChange(v: View, value: Option<string>): (c: Change)
    ensures value.Some? ==> c.view.code == value.value
    ensures value.None? ==> c.view.code == ""
    ensures c.view.userSelections == v.userSelections
    ensures c.outbound == value
  {
    Change(v.(code := if value.Some? && value.value != "" then value.value else ""), value)
  }

  /**
   Inbound `cursor-update`: `userSelections[userId] := { range, color }`. The
   sender's entry becomes the new one, every other id is as before, and the
   buffer is untouched.
   */
  function OnCursorUpdate(v: View, userId: string, range: Range, color: string): (r: View)
    ensures Lookup(r.userSelections, userId) == Some(Selection(range, color))
    ensures forall other :: other != userId ==> Lookup(r.userSelections, other) == Lookup(v.userSelections, other)
    ensures r.code == v.code
  {
    PutLookup(v.userSelections, userId, Selection(range, color));
    v.(userSelections := Put(v.userSelections, userId, Selection(range, color)))
  }

  /** A run of inbound `text-update`s, delivered in order. */
  function ReceiveTexts(v: View, texts: seq<string>): View
    decreases |texts|
  {
    if texts == [] then v else ReceiveTexts(OnTextUpdate(v, texts[0]), texts[1..])
  }

  // ----- properties of the replica -----

  /** The buffer holds the last text delivered, verbatim: no merge with what it held. */
  lemma {:induction false} LastWriterWins(v: View, texts: seq<string>)
    requires texts != []
    ensures ReceiveTexts(v, texts).code == texts[|texts| - 1]
    ensures ReceiveTexts(v, texts).userSelections == v.userSelections
    decreases |texts|
  {
    if |texts| > 1 {
      LastWriterWins(OnTextUpdate(v, texts[0]), texts[1..]);
    }
  }

  /** The keyed overwrite keeps an existing key where it stands and appends a new one. */
  lemma PutShape(s: seq<Entry>, k: string, v: Selection)
    ensures HasKey(s, k) ==> exists i :: && 0 <= i < |s| && s[i].userId == k
                                        && (forall j :: 0 <= j < i ==> s[j].userId != k)
                                        && Put(s, k, v) == s[i := Entry(k, v)]
    ensures !HasKey(s, k) ==> Put(s, k, v) == s + [Entry(k, v)]
  {
    if HasKey(s, k) {
      PutKnown(s, k, v);
    } else {
      PutNew(s, k, v);
    }
  }

  /** A new key is appended at the end. */
  lemma {:induction false} PutNew(s: seq<Entry>, k: string, v: Selection)
    requires !HasKey(s, k)
    ensures Put(s, k, v) == s + [Entry(k, v)]
  {
    if s != [] {
      assert s[0].userId != k;
      assert !HasKey(s[1..], k) by {
        assert forall i :: 0 <= i < |s[1..]| ==> s[1..][i] == s[i + 1];
      }
      PutNew(s[1..], k, v);
      assert [s[0]] + (s[1..] + [Entry(k, v)]) == s + [Entry(k, v)];
    }
  }

  /** An existing key is overwritten at its first position. */
  lemma {:induction false} PutKnown(s: seq<Entry>, k: string, v: Selection)
    requires HasKey(s, k)
    ensures exists i :: && 0 <= i < |s| && s[i].userId == k
                        && (forall j :: 0 <= j < i ==> s[j].userId != k)
                        && Put(s, k, v) == s[i := Entry(k, v)]
  {
    if s[0].userId == k {
      assert Put(s, k, v) == s[0 := Entry(k, v)];
    } else {
      assert HasKey(s[1..], k) by {
        var i :| 0 <= i < |s| && s[i].userId == k;
        assert s[1..][i - 1] == s[i];
      }
      PutKnown(s[1..], k, v);
      var i :| && 0 <= i < |s[1..]| && s[1..][i].userId == k
               && (forall j :: 0 <= j < i ==> s[1..][j].userId != k)
               && Put(s[1..], k, v) == s[1..][i := Entry(k, v)];
      PutKnownStep(s, k, v, i);
    }
  }

  /** The inductive step of PutKnown: the tail's first position `i` is the list's `i + 1`. */
  lemma PutKnownStep(s: seq<Entry>, k: string, v: Selection, i: nat)
    requires s != [] && s[0].userId != k && i < |s| - 1
    requires s[1..][i].userId == k && forall j :: 0 <= j < i ==> s[1..][j].userId != k
    requires Put(s[1..], k, v) == s[1..][i := Entry(k, v)]
    ensures s[i + 1].userId == k && forall j :: 0 <= j < i + 1 ==> s[j].userId != k
    ensures Put(s, k, v) == s[i + 1 := Entry(k, v)]
  {
    assert forall j :: 0 < j < |s| ==> s[j] == s[1..][j - 1];
    calc {
      Put(s, k, v);
      [s[0]] + Put(s[1..], k, v);
      [s[0]] + s[1..][i := Entry(k, v)];
      { ConsUpdate(s[0], s[1..], i, Entry(k, v)); }
      ([s[0]] + s[1..])[i + 1 := Entry(k, v)];
      { assert [s[0]] + s[1..] == s; }
      s[i + 1 := Entry(k, v)];
    }
  }

  /** Updating the tail at `i` is updating the whole list at `i + 1`. */
  lemma ConsUpdate(e: Entry, rest: seq<Entry>, i: nat, x: Entry)
    requires i < |rest|
    ensures [e] + rest[i := x] == ([e] + rest)[i + 1 := x]
  {
  }

  /** The keyed overwrite as a map update: `k` now holds `v`, every other key is as before. */
  lemma {:induction false} PutLookup(s: seq<Entry>, k: string, v: Selection)
    ensures Lookup(Put(s, k, v), k) == Some(v)
    ensures forall other :: other != k ==> Lookup(Put(s, k, v), other) == Lookup(s, other)
  {
    if s != [] && s[0].userId != k {
      PutLookup(s[1..], k, v);
      assert ([s[0]] + Put(s[1..], k, v))[1..] == Put(s[1..], k, v);
    }
  }

  /** Two lists whose keys agree position by position have the same keys. */
  lemma SameKeysPointwise(s: seq<Entry>, r: seq<Entry>)
    requires |r| == |s| && forall j :: 0 <= j < |s| ==> r[j].userId == s[j].userId
    ensures KeySet(r) == KeySet(s)
    ensures UniqueKeys(s) ==> UniqueKeys(r)
  {
    forall x | x in KeySet(s) ensures x in KeySet(r) {
      var e :| e in s && e.userId == x;
      var j :| 0 <= j < |s| && s[j] == e;
      assert r[j] in r;
    }
    forall x | x in KeySet(r) ensures x in KeySet(s) {
      var e :| e in r && e.userId == x;
      var j :| 0 <= j < |r| && r[j] == e;
      assert s[j] in s;
    }
  }

  /** Appending an entry under a new key keeps the keys unique and adds that key. */
  lemma AppendNewKey(s: seq<Entry>, e: Entry)
    requires UniqueKeys(s) && !HasKey(s, e.userId)
    ensures UniqueKeys(s + [e])
    ensures KeySet(s + [e]) == KeySet(s) + {e.userId}
  {
    var r := s + [e];
    forall a, b | 0 <= a < b < |r| ensures r[a].userId != r[b].userId {
      if b == |s| {
        assert r[a] == s[a];
      }
    }
    assert r[|s|] in r;
    forall x | x in KeySet(r) ensures x in KeySet(s) + {e.userId} {
      var e' :| e' in r && e'.userId == x;
      var j :| 0 <= j < |r| && r[j] == e';
      if j < |s| {
        assert s[j] in s;
      }
    }
    forall x | x in KeySet(s) ensures x in KeySet(r) {
      var e' :| e' in s && e'.userId == x;
      var j :| 0 <= j < |s| && s[j] == e';
      assert r[j] in r;
    }
  }

  /** A cursor-update never creates a second property with the same key. */
  lemma PutUniqueKeys(s: seq<Entry>, k: string, v: Selection)
    requires UniqueKeys(s)
    ensures UniqueKeys(Put(s, k, v))
    ensures KeySet(Put(s, k, v)) == KeySet(s) + {k}
  {
    PutShape(s, k, v);
    if HasKey(s, k) {
      var i :| 0 <= i < |s| && s[i].userId == k && Put(s, k, v) == s[i := Entry(k, v)];
      SameKeysPointwise(s, Put(s, k, v));
    } else {
      AppendNewKey(s, Entry(k, v));
    }
  }

  /**
   The page starts with no selections, and each of its handlers keeps the keys
   duplicate-free, so every reachable `userSelections` has unique keys.
   */
  lemma ReplicaKeepsUniqueKeys(v: View, data: string, userId: string, range: Range, color: string, value: Option<string>)
    requires UniqueKeys(v.userSelections)
    ensures UniqueKeys(InitialView.userSelections)
    ensures UniqueKeys(OnTextUpdate(v, data).userSelections)
    ensures UniqueKeys(OnCursorUpdate(v, userId, range, color).userSelections)
    ensures UniqueKeys(HandleEditorChange(v, value).view.userSelections)
  {
    PutUniqueKeys(v.userSelections, userId, Selection(range, color));
  }

  /** A second cursor-update from the same user replaces the first: the map never holds both ranges. */
  lemma {:induction false} PutOverwrite(s: seq<Entry>, k: string, v1: Selection, v2: Selection)
    ensures Put(Put(s, k, v1), k, v2) == Put(s, k, v2)
  {
    if s != [] && s[0].userId != k {
      PutOverwrite(s[1..], k, v1, v2);
      assert ([s[0]] + Put(s[1..], k, v1))[1..] == Put(s[1..], k, v1);
    }
  }

  /**
   The decoration list has exactly one entry per key, in key order; each copies the
   range of its user's selection and is classed `highlight-<color>`.
   */
  lemma DecorationsOnePerKey(s: seq<Entry>)
    requires UniqueKeys(s)
    ensures |Decorations(s)| == |KeySet(s)|
    ensures forall i :: 0 <= i < |s| ==> Decorations(s)[i] == Decorate(s[i].selection)
    ensures forall k, sel :: Lookup(s, k) == Some(sel) ==> Decorate(sel) in Decorations(s)
  {
    var keys := seq(|s|, i requires 0 <= i < |s| => s[i].userId);
    assert Distinct(keys);
    DistinctCardinality(keys);
    assert (set x | x in keys) == KeySet(s) by {
      forall x | x in KeySet(s) ensures x in keys {
        var e :| e in s && e.userId == x;
        var j :| 0 <= j < |s| && s[j] == e;
        assert keys[j] == x;
      }
    }
    forall k, sel | Lookup(s, k) == Some(sel) ensures Decorate(sel) in Decorations(s) {
      var i :| 0 <= i < |s| && s[i] == Entry(k, sel);
      assert Decorations(s)[i] == Decorate(sel);
    }
  }

  // ----- the page's own colour assigner -----

  /** `colors`. */
  const Palette: seq<string> := ["red", "blue", "green", "yellow", "purple"]

  /** What `getUserColor` returns for a missing or empty id. */
  const FallbackColor: string := "red"

  /** `userColorMap` and the `getUserColor(userId)` that fills it. */
  class ColorMap {
    /** `userColorMap`. */
    var userColorMap: map<string, string>
    /** The ids in the order they were first assigned. */
    ghost var order: seq<string>

    /**
     `order` lists each key once, and the k-th key (from 0) holds `colors[k mod 5]`;
     every stored colour is a palette entry.
     */
    ghost predicate Valid()
      reads this
    {
      && Distinct(order)
      && |order| == |userColorMap|
      && (forall id :: id in userColorMap <==> id in order)
      && (forall k :: 0 <= k < |order| ==> userColorMap[order[k]] == Palette[k % |Palette|])
      && (forall id :: id in userColorMap ==> userColorMap[id] in Palette)
    }

    /** The empty map at module load. */
    constructor ()
      ensures Valid() && userColorMap == map[] && order == []
    {
      userColorMap := map[];
      order := [];
    }

    /** Ids five apart in first-assignment order share a colour. */
    lemma FiveApartShareColor(k: nat)
      requires Valid()
      requires k + 5 < |order|
      ensures userColorMap[order[k]] == userColorMap[order[k + 5]]
    {
    }

    /**
     `getUserColor(userId)`: "red" for a falsy id; otherwise an id without a
     colour gets `colors[keys(userColorMap).length % 5]`, and the stored colour
     is returned.
     */
    method GetUserColor(userId: Option<string>) returns (color: string)
      requires Valid()
      modifies this
      ensures Valid()
      ensures color in Palette
      ensures (userId.None? || userId == Some("")) ==>
                color == FallbackColor && userColorMap == old(userColorMap) && order == old(order)
      ensures userId.Some? && userId.value != "" ==>
                userId.value in userColorMap && color == userColorMap[userId.value]
      ensures userId.Some? && userId.value in old(userColorMap) ==>
                userColorMap == old(userColorMap) && order == old(order)
      ensures userId.Some? && userId.value != "" && userId.value !in old(userColorMap) ==>
                && userColorMap == old(userColorMap)[userId.value := Palette[|old(userColorMap)| % |Palette|]]
                && order == old(order) + [userId.value]
    {
      if userId.None? || userId.value == "" {
        return FallbackColor;
      }
      var id := userId.value;
      // `!userColorMap[id]`: a missing entry and an empty string are both falsy
      var stored := if id in userColorMap then userColorMap[id] else "";
      if stored == "" {
        assert id !in order;
        var next := Palette[|userColorMap| % |Palette|];
        assert next in Palette;
        userColorMap := userColorMap[id := next];
        order := order + [id];
      }
      color := userColorMap[id];
    }
  }
}
