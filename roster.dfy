/**
 * The roster cell of one match: a free-text list of names separated by '/'.
 * Claiming the match either finds the caller already listed or writes the
 * cell back with the caller's display name appended.
 */
module Roster {
  import opened Optional
  import opened JavaText

  /** What claiming a slot does to the roster cell. */
  datatype RosterChange = AlreadyListed | Write(value: string)

  /** Every piece trimmed, in the same order. */
  function TrimAll(ps: seq<string>): (ts: seq<string>)
    ensures |ts| == |ps|
    ensures forall k :: 0 <= k < |ps| ==> ts[k] == Trim(ps[k])
    ensures forall k :: 0 <= k < |ts| ==> IsTrimmed(ts[k])
    ensures (forall k :: 0 <= k < |ps| ==> '/' !in ps[k]) ==> PlainNames(ts)
  {
    var ts := seq(|ps|, k requires 0 <= k < |ps| => Trim(ps[k]));
    assert (forall k :: 0 <= k < |ps| ==> '/' !in ps[k]) ==> PlainNames(ts) by {
      if forall k :: 0 <= k < |ps| ==> '/' !in ps[k] {
        forall k | 0 <= k < |ts| ensures '/' !in ts[k] {
          TrimKeepsNoSlash(ps[k]);
        }
      }
    }
    ts
  }

  /** The names listed in a roster cell: the cell split on '/', every piece trimmed. */
  function Entries(cell: string): (es: seq<string>)
    ensures |es| == |Split(cell)| && PlainNames(es)
  {
    SplitNoSlash(cell);
    TrimAll(Split(cell))
  }

  /** The names listed before the claim: none when the cell is empty (null). */
  function Listed(listed: Option<string>): seq<string> {
    match listed
    case None => []
    case Some(cell) => Entries(cell)
  }

  /**
   * The claim rule for one roster cell: an empty cell, or one that splits into
   * no pieces, becomes the name alone; a cell that already lists the name is
   * left alone; otherwise the trimmed entries, then the name, joined by " / ".
   */
  function NewRoster(listed: Option<string>, name: string): (r: RosterChange)
    ensures listed.None? ==> r == Write(name)
    ensures r.AlreadyListed? ==> listed.Some? && |Split(listed.value)| > 0
    ensures r.Write? ==> EndsWith(r.value, name)
  {
    assert listed.Some? && |Split(listed.value)| > 0 ==> EndsWith(Join(" / ", Entries(listed.value) + [name]), name) by {
      if listed.Some? && |Split(listed.value)| > 0 {
        JoinEndsWithLast(" / ", Entries(listed.value) + [name]);
      }
    }
    match listed
    case None => Write(name)
    case Some(cell) =>
      if |Split(cell)| == 0 then Write(name)
      else if name in Entries(cell) then AlreadyListed
      else Write(Join(" / ", Entries(cell) + [name]))
  }

  /** Trim every piece of a split cell in place, front to back. */
  method TrimEach(pieces: seq<string>) returns (names: seq<string>)
    ensures names == TrimAll(pieces)
  {
    names := pieces;
    var j := 0;
    while j < |names|
      invariant |names| == |pieces| && 0 <= j <= |names|
      invariant forall k :: 0 <= k < j ==> names[k] == TrimAll(pieces)[k]
      invariant forall k :: j <= k < |names| ==> names[k] == pieces[k]
    {
      names := names[j := Trim(names[j])];
      j := j + 1;
    }
  }

  /** Look for the caller among the trimmed entries, front to back. */
  method IsListed(names: seq<string>, name: string) returns (found: bool)
    ensures found <==> name in names
  {
    for k := 0 to |names|
      invariant forall m :: 0 <= m < k ==> names[m] != name
    {
      if names[k] == name {
        return true;
      }
    }
    return false;
  }

  /**
   * The roster update as the command performs it: split the cell, trim every
   * piece in place, look for the caller, append and join.
   */
  method UpdateRoster(listed: Option<string>, name: string) returns (change: RosterChange)
    ensures change == NewRoster(listed, name)
  {
    if listed.None? {
      return Write(name);
    }
    var names := Split(listed.value);
    if |names| >= 1 {
      names := TrimEach(names);
      var found := IsListed(names, name);
      if found {
        return AlreadyListed;
      }
      names := names + [name];
      change := Write(Join(" / ", names));
    } else {
      change := Write(name);
    }
  }

  // ---------------------------------------------------------------- properties

  /**
   * A claim is turned down exactly when the caller's name is one of the
   * trimmed entries; an empty (null) cell always takes the name alone.
   */
  lemma {:induction false} RejectedIffListed(listed: Option<string>, name: string)
    ensures NewRoster(listed, name).AlreadyListed? <==> name in Listed(listed)
  {
    if listed.Some? && |Split(listed.value)| == 0 {
      assert Entries(listed.value) == [];
    }
  }

  lemma {:induction false} EntriesOfTrimsTo(cell: string, ts: seq<string>)
    requires TrimsTo(Split(cell), ts)
    ensures Entries(cell) == ts
  {
  }

  /** A " / "-joined list of plain names reads back as that list. */
  lemma {:induction false} EntriesOfSpacedJoin(ts: seq<string>)
    requires |ts| >= 1 && PlainNames(ts)
    ensures Entries(Join(" / ", ts)) == ts
  {
    SplitSpacedJoin(ts);
    EntriesOfTrimsTo(Join(" / ", ts), ts);
  }

  /** A plain name alone in a cell reads back as that one name. */
  lemma {:induction false} EntriesOfName(name: string)
    requires PlainName(name)
    ensures Entries(name) == [name]
  {
    TrimOfTrimmed(name);
  }

  /**
   * After a successful claim the cell lists exactly the names it listed
   * before, in the same order, and then the caller: one entry more.
   */
  lemma {:induction false} EntriesAfterWrite(listed: Option<string>, name: string)
    requires PlainName(name) && NewRoster(listed, name).Write?
    ensures Entries(NewRoster(listed, name).value) == Listed(listed) + [name]
  {
    var v := NewRoster(listed, name).value;
    if listed.None? || |Split(listed.value)| == 0 {
      assert v == name;
      EntriesOfName(name);
    } else {
      var ts := Entries(listed.value) + [name];
      assert v == Join(" / ", ts);
      assert PlainNames(ts);
      EntriesOfSpacedJoin(ts);
    }
  }

  /** Claiming the same slot twice: the second claim finds the caller already listed. */
  lemma {:induction false} SecondClaimRejected(listed: Option<string>, name: string)
    requires PlainName(name) && NewRoster(listed, name).Write?
    ensures NewRoster(Some(NewRoster(listed, name).value), name) == AlreadyListed
  {
    EntriesAfterWrite(listed, name);
    var v := NewRoster(listed, name).value;
    assert Entries(v)[|Entries(v)| - 1] == name;
  }

  /**
   * A name that is not plain is never found among the trimmed entries, so
   * every claim by it writes the cell, however often it is repeated.
   */
  lemma {:induction false} NonPlainNameAlwaysWrites(listed: Option<string>, name: string)
    requires !PlainName(name)
    ensures NewRoster(listed, name).Write?
  {
  }

  /** The cell "a/b" lists the two names "a" and "b". */
  lemma {:induction false} EntriesOfSlashName()
    ensures Entries("a/b") == ["a", "b"]
  {
    var parts := ["a", "b"];
    assert Split("a/b") == parts by {
      assert Join("/", parts) == "a/b";
      SplitOfJoin(parts);
    }
    TrimOfTrimmed("a");
    TrimOfTrimmed("b");
  }

  /**
   * A display name with a '/' in it is cut in two when the cell is read back,
   * so the same caller can claim the same slot again.
   */
  lemma {:induction false} SlashNameClaimsAgain()
    ensures NewRoster(Some("a/b"), "a/b") == Write("a / b / a/b")
  {
    var cell := "a/b";
    EntriesOfSlashName();
    assert cell !in ["a", "b"];
    var names := ["a", "b"] + [cell];
    assert names[1..] == ["b", cell] && names[1..][1..] == [cell];
    assert Join(" / ", [cell]) == cell;
    assert Join(" / ", ["b", cell]) == "b" + " / " + cell;
    assert Join(" / ", names) == "a" + " / " + ("b" + " / " + cell);
    assert "a" + " / " + ("b" + " / " + cell) == "a / b / a/b";
  }

  /**
   * A display name with a trailing space is trimmed when the cell is read
   * back, so the same caller can claim the same slot again.
   */
  lemma {:induction false} PaddedNameClaimsAgain()
    ensures NewRoster(Some("bob "), "bob ") == Write("bob / bob ")
  {
    assert Split("bob ") == ["bob "];
    TrimPadded("", "bob", " ");
    assert "" + "bob" + " " == "bob ";
    assert Entries("bob ") == ["bob"];
    assert Join(" / ", ["bob", "bob "]) == "bob / bob ";
  }

  /** A cell holding nothing but '/' splits into no entries, so the name is written alone. */
  lemma {:induction false} SlashOnlyCellWritesName(cell: string, name: string)
    requires |cell| > 0 && AllSlashes(cell)
    ensures NewRoster(Some(cell), name) == Write(name)
  {
    SplitEmptyIff(cell);
  }

  /** An empty (but not missing) cell splits into one empty entry, which is kept before the name. */
  lemma {:induction false} EmptyCellKeepsEmptyEntry(name: string)
    requires name != ""
    ensures NewRoster(Some(""), name) == Write(" / " + name)
  {
    assert Split("") == [""];
    assert Trim("") == "";
    assert Entries("") == [""];
    assert Join(" / ", [""] + [name]) == "" + " / " + name;
  }
}
