/**
 * Hierarchical names in the VPI (include/verilated_vpi.cpp): splitting the
 * name given to vpi_handle_by_name into a scope and a base name at the last
 * separator outside an escaped identifier, the toplevel test of a module
 * handle (no '.' outside an escaped identifier), and the "TOP." prefix
 * dropped from a scope's full name.
 *
 * An escaped identifier starts with a backslash and runs up to and
 * including the next space. The scan only recognises a backslash where an
 * identifier can start: at the beginning, right after a separator, or right
 * after another escaped identifier.
 */
module VpiNames {
  import opened Wrappers

  /** What the scan remembers: the last separator, the one before it, whether a "::" was seen. */
  datatype ScanState = ScanState(pos: Option<nat>, prev: Option<nat>, pkg: bool)

  const Start := ScanState(None, None, false)

  /** A separator starts at t[j]: '.', or "::" when colons count. */
  predicate SepAt(t: string, j: nat, colons: bool)
    requires j < |t|
  {
    t[j] == '.' || (colons && j + 1 < |t| && t[j] == ':' && t[j + 1] == ':')
  }

  /**
   * The separator scan over the rest t of the name, which starts at position
   * off, where an identifier can start: a backslash opens an escaped
   * identifier, anything else a plain stretch.
   */
  function Scan(t: string, off: nat, st: ScanState, colons: bool, corrected: bool): (r: ScanState)
    ensures r.pos.Some? ==> r.pos == st.pos || r.pos.value < off + |t|
    decreases |t|, 1
  {
    if t == [] then st
    else if t[0] == '\\' then Escaped(t[1..], off + 1, st, colons, corrected)
    else Plain(t, off, st, colons, corrected)
  }

  /** Inside an escaped identifier: everything up to and including the next space is skipped. */
  function Escaped(t: string, off: nat, st: ScanState, colons: bool, corrected: bool): (r: ScanState)
    ensures r.pos.Some? ==> r.pos == st.pos || r.pos.value < off + |t|
    decreases |t|, 0
  {
    if t == [] then st
    else if t[0] == ' ' then Scan(t[1..], off + 1, st, colons, corrected)
    else Escaped(t[1..], off + 1, st, colons, corrected)
  }

  /**
   * Inside a plain stretch, up to the next separator, which is recorded. As
   * written, a "::" separator resumes the scan at its second ':' and the
   * package flag sticks once any "::" was seen; the corrected scan resumes
   * after both characters and records whether the LAST separator was "::".
   */
  function Plain(t: string, off: nat, st: ScanState, colons: bool, corrected: bool): (r: ScanState)
    ensures r.pos.Some? ==> r.pos == st.pos || r.pos.value < off + |t|
    decreases |t|, 0
  {
    if t == [] then st
    else if SepAt(t, 0, colons) then
      var colon := t[0] == ':';
      var step := if corrected && colon then 2 else 1;
      Scan(t[step..], off + step, ScanState(Some(off), st.pos, if corrected then colon else st.pkg || colon), colons, corrected)
    else Plain(t[1..], off + 1, st, colons, corrected)
  }

  /**
   * The separator loops of vpi_handle_by_name (colons true) and of the
   * VerilatedVpioModule constructor (colons false), index by index.
   */
  method ScanSeparators(s: string, colons: bool) returns (pos: Option<nat>, prevpos: Option<nat>, isPackage: bool)
    ensures ScanState(pos, prevpos, isPackage) == Scan(s, 0, Start, colons, false)
  {
    ghost var r := Scan(s, 0, Start, colons, false);
    var i: nat := 0;
    pos, prevpos, isPackage := None, None, false;
    assert s[0..] == s;
    while i < |s|
      invariant i <= |s| + 1
      invariant i <= |s| ==> Scan(s[i..], i, ScanState(pos, prevpos, isPackage), colons, false) == r
      invariant i == |s| + 1 ==> ScanState(pos, prevpos, isPackage) == r
      decreases |s| + 1 - i
    {
      ghost var st := ScanState(pos, prevpos, isPackage);
      if s[i] == '\\' {
        assert s[i..][1..] == s[i + 1..];
        i := i + 1;
        while i < |s| && s[i] != ' '
          invariant i <= |s| && Escaped(s[i..], i, st, colons, false) == r
        {
          assert s[i..][1..] == s[i + 1..];
          i := i + 1;
        }
        if i < |s| {
          assert s[i..][1..] == s[i + 1..];
        }
        i := i + 1;
      } else {
        while i < |s| && !SepAt(s, i, colons)
          invariant i <= |s| && Plain(s[i..], i, st, colons, false) == r
        {
          assert s[i..][1..] == s[i + 1..];
          assert SepAt(s[i..], 0, colons) == SepAt(s, i, colons);
          i := i + 1;
        }
        if i < |s| {
          assert SepAt(s[i..], 0, colons) && s[i..][1..] == s[i + 1..];
          prevpos := pos;
          pos := Some(i);
          i := i + 1;
          if s[i - 1] == ':' {
            isPackage := true;
          }
        }
      }
    }
  }

  /** The outcome of the split: scope and base name, and whether the TOP ports are searched first. */
  datatype NameSplit = NameSplit(scope: string, base: string, searchTop: bool)

  /**
   * The split in vpi_handle_by_name: without a separator the base is the
   * whole name and the scope empty; otherwise the scope is the text before
   * the last separator ("$unit" becoming "\$unit ") and the base follows it,
   * two characters on when the package flag is set and one otherwise. The TOP
   * ports are searched first when there is at most one separator.
   */
  function SplitName(s: string, corrected: bool): (r: NameSplit)
    ensures Scan(s, 0, Start, true, corrected).pos == None ==> r == NameSplit("", s, true)
  {
    var st := Scan(s, 0, Start, true, corrected);
    match st.pos
    case None => NameSplit("", s, true)
    case Some(p) =>
      var cut := if st.pkg then p + 2 else p + 1;
      var scope := if s[..p] == "$unit" then "\\$unit " else s[..p];
      NameSplit(scope, if cut <= |s| then s[cut..] else "", st.prev == None)
  }

  /** The split as vpi_handle_by_name computes it, with the separator loop. */
  method SplitHandleName(s: string) returns (r: NameSplit)
    ensures r == SplitName(s, false)
  {
    var pos, prevpos, isPackage := ScanSeparators(s, true);
    r := NameSplit("", s, true);
    if pos.Some? {
      var p := pos.value;
      var cut := if isPackage then p + 2 else p + 1;
      var scope := if s[..p] == "$unit" then "\\$unit " else s[..p];
      r := NameSplit(scope, if cut <= |s| then s[cut..] else "", prevpos == None);
    }
  }

  /** A module scope is toplevel when its full name has no '.' outside an escaped identifier. */
  method IsToplevel(fullname: string) returns (top: bool)
    ensures top <==> Scan(fullname, 0, Start, false, false).pos == None
  {
    var pos, _, _ := ScanSeparators(fullname, false);
    top := pos == None;
  }

  /** The full name of a scope handle: its scope name without a leading "TOP.". */
  function ScopeFullName(name: string): (r: string)
    ensures |name| >= 4 && name[..4] == "TOP." ==> name == "TOP." + r
    ensures !(|name| >= 4 && name[..4] == "TOP.") ==> r == name
  {
    if |name| >= 4 && name[..4] == "TOP." then name[4..] else name
  }

  // ---- Names built from identifiers ----

  /** A plain identifier: nonempty, with no '.', ':' or backslash. */
  predicate PlainId(x: string)
  {
    |x| > 0 && forall k | 0 <= k < |x| :: x[k] != '.' && x[k] != ':' && x[k] != '\\'
  }

  /** An escaped identifier: a backslash, characters other than space, and the terminating space. */
  predicate EscapedId(x: string)
  {
    |x| >= 2 && x[0] == '\\' && x[|x| - 1] == ' ' && forall k | 0 <= k < |x| - 1 :: x[k] != ' '
  }

  predicate Ident(x: string)
  {
    PlainId(x) || EscapedId(x)
  }

  function SepText(colon: bool): string
  {
    if colon then "::" else "."
  }

  /** ids[0] seps[0] ids[1] ... : the separator between ids[k] and ids[k+1] is "::" when seps[k]. */
  function Join(ids: seq<string>, seps: seq<bool>): string
    requires |ids| == |seps| + 1
    decreases |ids|
  {
    if |ids| == 1 then ids[0] else ids[0] + SepText(seps[0]) + Join(ids[1..], seps[1..])
  }

  /** The name parts as a path: identifiers, and separators the scan recognises. */
  predicate Path(ids: seq<string>, seps: seq<bool>, colons: bool, corrected: bool)
  {
    |ids| == |seps| + 1 && (forall k | 0 <= k < |ids| :: Ident(ids[k]))
    && (forall k | 0 <= k < |seps| :: seps[k] ==> colons && corrected)
  }

  /** The scan passes over a plain identifier to what follows it. */
  lemma {:induction false} PlainOverId(x: string, w: string, off: nat, st: ScanState, colons: bool, corrected: bool)
    requires PlainId(x)
    ensures Plain(x + w, off, st, colons, corrected) == Plain(w, off + |x|, st, colons, corrected)
    decreases |x|
  {
    assert (x + w)[1..] == x[1..] + w;
    assert !SepAt(x + w, 0, colons);
    if |x| > 1 {
      PlainOverId(x[1..], w, off + 1, st, colons, corrected);
    } else {
      assert x[1..] + w == w;
    }
  }

  /** The scan passes over the body of an escaped identifier and its space. */
  lemma {:induction false} EscapedOverBody(x: string, w: string, off: nat, st: ScanState, colons: bool, corrected: bool)
    requires |x| >= 1 && x[|x| - 1] == ' ' && forall k | 0 <= k < |x| - 1 :: x[k] != ' '
    ensures Escaped(x + w, off, st, colons, corrected) == Scan(w, off + |x|, st, colons, corrected)
    decreases |x|
  {
    assert (x + w)[1..] == x[1..] + w;
    if |x| > 1 {
      EscapedOverBody(x[1..], w, off + 1, st, colons, corrected);
    } else {
      assert x[1..] + w == w;
    }
  }

  /** The scan passes over an identifier, whatever its kind, to what follows it (a separator or the end). */
  lemma ScanOverId(x: string, w: string, off: nat, st: ScanState, colons: bool, corrected: bool)
    requires Ident(x) && (w == [] || SepAt(w, 0, colons))
    ensures Scan(x + w, off, st, colons, corrected) == Plain(w, off + |x|, st, colons, corrected)
  {
    if PlainId(x) {
      PlainOverId(x, w, off, st, colons, corrected);
    } else {
      assert (x + w)[1..] == x[1..] + w;
      EscapedOverBody(x[1..], w, off + 1, st, colons, corrected);
      if w != [] {
        assert w[0] != '\\';
      }
    }
  }

  /** The scan passes over an identifier that ends the name without recording anything. */
  lemma ScanLastId(x: string, off: nat, st: ScanState, colons: bool, corrected: bool)
    requires Ident(x)
    ensures Scan(x, off, st, colons, corrected) == st
  {
    ScanOverId(x, [], off, st, colons, corrected);
    assert x + [] == x;
  }

  /** An identifier followed by a separator: the scan records the separator and goes on after it. */
  lemma ScanIdSep(x: string, colon: bool, u: string, off: nat, st: ScanState, colons: bool, corrected: bool)
    requires Ident(x) && (colon ==> colons && corrected)
    ensures Scan(x + SepText(colon) + u, off, st, colons, corrected)
         == Scan(u, off + |x| + |SepText(colon)|, ScanState(Some(off + |x|), st.pos, if corrected then colon else st.pkg || colon), colons, corrected)
  {
    var w := SepText(colon) + u;
    assert x + SepText(colon) + u == x + w;
    assert w[|SepText(colon)|..] == u;
    assert SepAt(w, 0, colons) && (w[0] == ':' <==> colon);
    ScanOverId(x, w, off, st, colons, corrected);
  }

  lemma JoinStart(ids: seq<string>, seps: seq<bool>)
    requires |ids| == |seps| + 1 && forall k | 0 <= k < |ids| :: Ident(ids[k])
    ensures Ident(ids[0]) && |ids[0]| > 0
    ensures Join(ids, seps) != [] && Join(ids, seps)[0] == ids[0][0] && ids[0][0] != ':'
  {
    if |ids| > 1 {
      assert Ident(ids[0]);
    }
  }

  /** Joining all but the last identifier, then the last separator and identifier, gives the whole name. */
  lemma {:induction false} JoinSnoc(ids: seq<string>, seps: seq<bool>)
    requires |ids| == |seps| + 1 && |ids| >= 2
    ensures Join(ids, seps) == Join(ids[..|ids| - 1], seps[..|seps| - 1]) + SepText(seps[|seps| - 1]) + ids[|ids| - 1]
    decreases |ids|
  {
    if |ids| > 2 {
      JoinSnoc(ids[1..], seps[1..]);
      assert ids[1..][..|ids| - 2] == ids[..|ids| - 1][1..];
      assert seps[1..][..|seps| - 2] == seps[..|seps| - 1][1..];
    }
  }

  lemma JoinPrefix(ids: seq<string>, seps: seq<bool>, m: nat)
    requires |ids| == |seps| + 1 && 2 <= m <= |ids|
    ensures |Join(ids[..m], seps[..m - 1])| == |ids[0]| + |SepText(seps[0])| + |Join(ids[1..][..m - 1], seps[1..][..m - 2])|
  {
    assert ids[..m][1..] == ids[1..][..m - 1];
    assert seps[..m - 1][1..] == seps[1..][..m - 2];
  }

  /**
   * Scanning a path records its last separator, the one before it, and the
   * package flag: the kind of the last separator when corrected, and false
   * for the dot-only paths the scan as written handles.
   */
  lemma {:induction false} ScanJoin(ids: seq<string>, seps: seq<bool>, off: nat, st: ScanState, colons: bool, corrected: bool)
    requires Path(ids, seps, colons, corrected)
    ensures var r := Scan(Join(ids, seps), off, st, colons, corrected);
      && (|ids| == 1 ==> r == st)
      && (|ids| >= 2 ==>
            r.pos == Some(off + |Join(ids[..|ids| - 1], seps[..|seps| - 1])|)
            && r.pkg == (if corrected then seps[|seps| - 1] else st.pkg))
      && (|ids| == 2 ==> r.prev == st.pos)
      && (|ids| >= 3 ==> r.prev == Some(off + |Join(ids[..|ids| - 2], seps[..|seps| - 2])|))
    decreases |ids|
  {
    if |ids| == 1 {
      ScanLastId(ids[0], off, st, colons, corrected);
    } else {
      var u := Join(ids[1..], seps[1..]);
      assert Path(ids[1..], seps[1..], colons, corrected);
      JoinStart(ids[1..], seps[1..]);
      ScanIdSep(ids[0], seps[0], u, off, st, colons, corrected);
      assert Join(ids, seps) == ids[0] + SepText(seps[0]) + u;
      var off' := off + |ids[0]| + |SepText(seps[0])|;
      var st' := ScanState(Some(off + |ids[0]|), st.pos, if corrected then seps[0] else st.pkg || seps[0]);
      ScanJoin(ids[1..], seps[1..], off', st', colons, corrected);
      if |ids| == 2 {
        assert ids[..1] == [ids[0]];
      } else {
        JoinPrefix(ids, seps, |ids| - 1);
        if |ids| == 3 {
          assert ids[..1] == [ids[0]];
        } else {
          JoinPrefix(ids, seps, |ids| - 2);
        }
      }
    }
  }

  function UnitRename(scope: string): string
  {
    if scope == "$unit" then "\\$unit " else scope
  }

  /**
   * The corrected split takes a path of two or more identifiers apart at its
   * last separator, whatever mix of '.' and "::" it uses; the TOP ports are
   * searched first exactly when there is one separator.
   */
  lemma SplitPath(ids: seq<string>, seps: seq<bool>)
    requires Path(ids, seps, true, true) && |ids| >= 2
    ensures SplitName(Join(ids, seps), true)
         == NameSplit(UnitRename(Join(ids[..|ids| - 1], seps[..|seps| - 1])), ids[|ids| - 1], |ids| == 2)
  {
    ScanJoin(ids, seps, 0, Start, true, true);
    JoinSnoc(ids, seps);
  }

  /** A single identifier is not split: it is all base name. */
  lemma SplitSingle(x: string, corrected: bool)
    requires Ident(x)
    ensures SplitName(x, corrected) == NameSplit("", x, true)
  {
    ScanLastId(x, 0, Start, true, corrected);
  }

  /** The split as written takes a dot-separated path apart at its last '.'. */
  lemma SplitDotPath(ids: seq<string>, seps: seq<bool>)
    requires Path(ids, seps, true, false) && |ids| >= 2
    ensures SplitName(Join(ids, seps), false)
         == NameSplit(UnitRename(Join(ids[..|ids| - 1], seps[..|seps| - 1])), ids[|ids| - 1], |ids| == 2)
  {
    ScanJoin(ids, seps, 0, Start, true, false);
    JoinSnoc(ids, seps);
    assert !seps[|seps| - 1];
  }

  /** A module whose full name is a dot-separated path is toplevel iff the path has one identifier. */
  lemma ToplevelPath(ids: seq<string>, seps: seq<bool>)
    requires Path(ids, seps, false, false)
    ensures Scan(Join(ids, seps), 0, Start, false, false).pos == None <==> |ids| == 1
  {
    ScanJoin(ids, seps, 0, Start, false, false);
  }

  /**
   * As written, a "::" anywhere before the last separator makes the split
   * skip two characters after a final '.': "p::a.b" loses the first
   * character of its base name "b", which SplitPath gives for the corrected
   * split.
   */
  lemma PackageThenDotLosesBase()
    ensures SplitName("p::a.b", false) == NameSplit("p::a", "", false)
  {
    var s := "p::a.b";
    var st1 := ScanState(Some(1), None, true);
    var st2 := ScanState(Some(4), Some(1), true);
    assert Plain("b", 5, st2, true, false) == st2 by {
      assert "b"[1..] == [];
    }
    assert Plain(".b", 4, st1, true, false) == st2 by {
      assert ".b"[1..] == "b";
    }
    assert Plain(":a.b", 2, st1, true, false) == st2 by {
      assert ":a.b"[1..] == "a.b" && "a.b"[1..] == ".b";
    }
    assert Plain(s[1..], 1, Start, true, false) == st2 by {
      assert s[1..] == "::a.b" && s[1..][1..] == ":a.b";
    }
    assert Scan(s, 0, Start, true, false) == st2;
    assert s[..4] == "p::a" && s[6..] == [];
  }
}
