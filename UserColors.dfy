/**
 The login colour table of client/src/utils/userColors.ts: a module-level
 map from user id to colour that asks the shared picker of
 client/src/utils/colorPicker.ts for a colour once per unseen id.
 */
module UserColors {
  import opened Prelude
  import opened ColorPicker

  class LoginColors {
    /** `usersColors`. */
    var usersColors: map<string, string>
    /** The module-level picker this table draws from. */
    const picker: Picker
    /** The ids in the order they were first seen. */
    ghost var order: seq<string>

    /** Every stored colour is a palette entry; `order` lists each stored id once. */
    ghost predicate Valid()
      reads this, picker
    {
      && picker.Valid()
      && Distinct(order)
      && (forall id :: id in usersColors <==> id in order)
      && (forall id :: id in usersColors ==> usersColors[id] in Colors)
    }

    /**
     Nothing but this table has drawn from the picker: the k-th distinct id
     (from 0) holds `COLORS[k mod 10]`.
     */
    ghost predicate SoleCaller()
      requires Valid()
      reads this, picker
    {
      && picker.colorIndex == |order|
      && forall k :: 0 <= k < |order| ==> usersColors[order[k]] == ColorAt(k)
    }

    /** The empty table at module load, drawing from `p`. */
    constructor (p: Picker)
      requires p.Valid()
      ensures Valid() && picker == p
      ensures usersColors == map[] && order == []
      ensures p.colorIndex == 0 ==> SoleCaller()
    {
      usersColors := map[];
      picker := p;
      order := [];
    }

    /**
     `handleLogin(userId)`: an id without a (truthy) colour gets the picker's
     next colour; the colour stored under the id is returned.
     */
    method HandleLogin(userId: string) returns (color: string)
      requires Valid()
      modifies this, picker
      ensures Valid()
      ensures userId in usersColors && color == usersColors[userId] && color in Colors
      ensures userId in old(usersColors) ==>
                && usersColors == old(usersColors)
                && order == old(order)
                && picker.colorIndex == old(picker.colorIndex)
                && picker.issued == old(picker.issued)
      ensures userId !in old(usersColors) ==>
                && usersColors == old(usersColors)[userId := ColorAt(old(picker.colorIndex))]
                && order == old(order) + [userId]
                && picker.colorIndex == old(picker.colorIndex) + 1
                && picker.issued == old(picker.issued) + [color]
      ensures forall id :: id in old(usersColors) ==> id in usersColors && usersColors[id] == old(usersColors)[id]
      ensures old(SoleCaller()) ==> SoleCaller()
    {
      // `!usersColors[userId]`: a missing entry and an empty string are both falsy
      var stored := if userId in usersColors then usersColors[userId] else "";
      if stored == "" {
        var c := picker.GetUserColor();
        usersColors := usersColors[userId := c];
        order := order + [userId];
      }
      color := usersColors[userId];
    }
  }

  /**
   With the table as the picker's only caller, ids ten apart in first-login
   order share a colour: the palette wraps around.
   */
  lemma TenApartShareColor(t: LoginColors, k: nat)
    requires t.Valid() && t.SoleCaller()
    requires k + 10 < |t.order|
    ensures t.usersColors[t.order[k]] == t.usersColors[t.order[k + 10]]
  {
    ColorAtPeriodic(k);
  }

  /** Three logins, the middle one a repeat: the repeat keeps its colour and does not advance the picker. */
  method LoginSequence()
  {
    var p := new Picker();
    var table := new LoginColors(p);
    var a := table.HandleLogin("alice");
    assert a == ColorAt(0) && table.usersColors == map["alice" := a];
    var b := table.HandleLogin("bob");
    assert b == ColorAt(1) && p.colorIndex == 2;
    var a' := table.HandleLogin("alice");
    assert a' == a && p.colorIndex == 2;
    var c := table.HandleLogin("carol");
    assert c == ColorAt(2);
    assert a == "#FF6B6B" && b == "#6BCB77" && c == "#4D96FF";
    assert p.colorIndex == 3;
  }
}
