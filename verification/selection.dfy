/** The genre selection: an ordered list of genre names, the toggle handler
    that edits it, and the predicates that decide which check-boxes are
    disabled. The selection starts as `[""]`, not empty. */
module Selection {
  import opened Catalog

  /** The cap on the number of entries (placeholder included). */
  const MaxSelected: nat := 5

  /** The initial selection: one empty placeholder entry. */
  const Initial: seq<string> := [""]

  predicate NoDup(s: seq<string>) {
    forall i, j :: 0 <= i < j < |s| ==> s[i] != s[j]
  }

  predicate HasSpecial(sel: seq<string>) {
    Documentary in sel || TvMovie in sel
  }

  /** `sel` with every occurrence of `g` dropped, the others kept in order. */
  function Remove(sel: seq<string>, g: string): (r: seq<string>)
    ensures multiset(r) == multiset(sel)[g := 0]
    ensures forall x :: x in r <==> x in sel && x != g
    ensures |r| <= |sel|
  {
    if |sel| == 0 then []
    else
      assert sel == [sel[0]] + sel[1..];
      if sel[0] == g then Remove(sel[1..], g)
      else [sel[0]] + Remove(sel[1..], g)
  }

  /** Removal distributes over concatenation: what survives of `a` still
      comes before what survives of `b`. */
  lemma {:induction false} RemoveAppend(a: seq<string>, b: seq<string>, g: string)
    ensures Remove(a + b, g) == Remove(a, g) + Remove(b, g)
  {
    if |a| == 0 {
      assert a + b == b;
    } else {
      assert (a + b)[1..] == a[1..] + b;
      RemoveAppend(a[1..], b, g);
    }
  }

  /** Removing a genre that is not there changes nothing. */
  lemma {:induction false} RemoveAbsent(sel: seq<string>, g: string)
    requires g !in sel
    ensures Remove(sel, g) == sel
  {
    if |sel| > 0 {
      RemoveAbsent(sel[1..], g);
    }
  }

  /** Removing one genre from a list without duplicates keeps it free of
      duplicates. */
  lemma {:induction false} RemoveNoDup(sel: seq<string>, g: string)
    requires NoDup(sel)
    ensures NoDup(Remove(sel, g))
  {
    if |sel| > 0 {
      assert NoDup(sel[1..]);
      RemoveNoDup(sel[1..], g);
      if sel[0] != g {
        assert sel[0] !in sel[1..];
      }
    }
  }

  /** The check-box change handler: a selected genre is removed, an absent one
      is appended while fewer than `MaxSelected` entries are held, and
      otherwise the selection is returned as it was. */
  function Toggle(sel: seq<string>, g: string): (r: seq<string>)
    ensures g in sel ==> r == Remove(sel, g)
    ensures g in sel ==> multiset(r) == multiset(sel)[g := 0]
    ensures g !in sel && |sel| < MaxSelected ==> r == sel + [g]
    ensures g !in sel && |sel| >= MaxSelected ==> r == sel
    ensures g in r <==> g !in sel && |sel| < MaxSelected
    ensures forall x :: x != g ==> (x in r <==> x in sel)
    ensures |sel| <= MaxSelected ==> |r| <= MaxSelected
    ensures NoDup(sel) ==> NoDup(r)
  {
    if g in sel then
      if NoDup(sel) then RemoveNoDup(sel, g); Remove(sel, g)
      else Remove(sel, g)
    else if |sel| < MaxSelected then sel + [g]
    else sel
  }

  /** Adding an absent genre and toggling it again restores the selection. */
  lemma {:induction false} AddThenRemove(sel: seq<string>, g: string)
    requires g !in sel && |sel| < MaxSelected
    ensures Toggle(Toggle(sel, g), g) == sel
  {
    RemoveAppend(sel, [g], g);
    RemoveAbsent(sel, g);
    assert Remove([g], g) == [];
  }

  /** Removing the single occurrence of `g` closes the gap it leaves. */
  lemma RemoveSingle(a: seq<string>, g: string, b: seq<string>)
    requires g !in a && g !in b
    ensures Remove(a + [g] + b, g) == a + b
  {
    assert Remove([g], g) == [];
    RemoveAbsent(a, g);
    RemoveAppend(a, [g], g);
    assert Remove(a + [g], g) == a;
    RemoveAbsent(b, g);
    RemoveAppend(a + [g], b, g);
  }

  /** In a list without duplicates, removing the genre at index `k` closes
      the gap at `k`. */
  lemma RemoveHeld(sel: seq<string>, g: string, k: int)
    requires NoDup(sel) && 0 <= k < |sel| && sel[k] == g
    ensures Remove(sel, g) == sel[..k] + sel[k + 1..]
  {
    var a, b := sel[..k], sel[k + 1..];
    assert sel == a + [g] + b;
    assert g !in a && g !in b by {
      assert forall i :: 0 <= i < |a| ==> a[i] == sel[i];
      assert forall i :: 0 <= i < |b| ==> b[i] == sel[k + 1 + i];
    }
    RemoveSingle(a, g, b);
  }

  /** Closing the gap at `k` and appending the entry from `k` gives back the
      list exactly when `k` was the last index. */
  lemma GapThenAppend(sel: seq<string>, k: int)
    requires NoDup(sel) && 0 <= k < |sel|
    ensures sel[..k] + sel[k + 1..] + [sel[k]] == sel <==> k == |sel| - 1
  {
    var moved := sel[..k] + sel[k + 1..] + [sel[k]];
    if k == |sel| - 1 {
      assert sel[k + 1..] == [];
      assert sel[..k] + [sel[k]] == sel;
    } else {
      assert sel[k] != sel[|sel| - 1];
      assert moved[|moved| - 1] != sel[|sel| - 1];
    }
  }

  /** Removing a selected genre and toggling it again re-adds it at the end,
      so the selection comes back only when the genre was already last. */
  lemma RemoveThenAdd(sel: seq<string>, g: string)
    requires NoDup(sel) && |sel| <= MaxSelected && g in sel
    ensures Toggle(Toggle(sel, g), g) == Remove(sel, g) + [g]
    ensures Toggle(Toggle(sel, g), g) == sel <==> sel[|sel| - 1] == g
  {
    var k :| 0 <= k < |sel| && sel[k] == g;
    RemoveHeld(sel, g, k);
    GapThenAppend(sel, k);
    assert sel[|sel| - 1] == g <==> k == |sel| - 1 by {
      if k != |sel| - 1 {
        assert sel[k] != sel[|sel| - 1];
      }
    }
    var once := Toggle(sel, g);
    assert once == Remove(sel, g);
    assert |once| < MaxSelected && g !in once;
  }

  /** Which check-boxes the special-genre rule disables: `Documentary` and
      `TV Movie` exclude each other and every other genre. Once either is held
      everything else is off, except the held special genre itself; while
      neither is held, a non-empty selection turns both off. */
  function IsGenreDisabled(sel: seq<string>, g: string): (r: bool)
    ensures HasSpecial(sel) && !IsSpecial(g) ==> r
    ensures Documentary in sel && g == TvMovie ==> r
    ensures TvMovie in sel && g == Documentary ==> r
    ensures g == Documentary && Documentary in sel && TvMovie !in sel ==> !r
    ensures g == TvMovie && TvMovie in sel && Documentary !in sel ==> !r
    ensures !HasSpecial(sel) && |sel| >= 1 && IsSpecial(g) ==> r
    ensures !HasSpecial(sel) && !IsSpecial(g) ==> !r
  {
    var hasDocumentary := Documentary in sel;
    var hasTvMovie := TvMovie in sel;
    if (hasDocumentary && g == TvMovie) || (hasTvMovie && g == Documentary) then true
    else if (hasDocumentary || hasTvMovie) && !IsSpecial(g) then true
    else if !hasDocumentary && !hasTvMovie && |sel| >= 1 && IsSpecial(g) then true
    else false
  }

  /** A selection that holds at most one special genre, and nothing else
      beside it. */
  predicate Unmixed(sel: seq<string>) {
    && !(Documentary in sel && TvMovie in sel)
    && (HasSpecial(sel) ==> forall x :: x in sel ==> IsSpecial(x))
  }

  /** On a selection that does not already mix a special genre with another
      one, the disabled predicate agrees with the legality rule: a genre is
      enabled exactly when it is selected (and may be removed) or it may be
      added, that is, nothing special is held and either the genre is ordinary
      or the selection is empty. */
  lemma DisabledMatchesRule(sel: seq<string>, g: string)
    requires Unmixed(sel)
    ensures !IsGenreDisabled(sel, g) <==>
      g in sel || (!HasSpecial(sel) && (!IsSpecial(g) || |sel| == 0))
  {
  }

  /** The legality rule every selection should obey. */
  predicate Legal(sel: seq<string>) {
    |sel| <= MaxSelected && NoDup(sel) && Unmixed(sel)
  }

  /** The check-box's disabled condition: the special-genre rule, or the cap
      reached and the genre not among the selected ones. A box is enabled
      exactly when the rule allows it and it is held or there is room. */
  function IsCheckboxDisabled(sel: seq<string>, g: string): (disabled: bool)
    ensures IsGenreDisabled(sel, g) ==> disabled
    ensures |sel| >= MaxSelected && g !in sel ==> disabled
    ensures !IsGenreDisabled(sel, g) && (g in sel || |sel| < MaxSelected) ==> !disabled
    ensures !disabled && g !in sel ==> |sel| < MaxSelected
  {
    IsGenreDisabled(sel, g) || (|sel| >= MaxSelected && g !in sel)
  }

  /** A toggle through an enabled check-box keeps the selection unmixed. */
  lemma EnabledToggleKeepsUnmixed(sel: seq<string>, g: string)
    requires Unmixed(sel) && !IsCheckboxDisabled(sel, g)
    ensures Unmixed(Toggle(sel, g))
  {
  }

  /** A click on check-box `g`: a disabled box does nothing, an enabled one
      runs the toggle handler. A legal selection stays legal. */
  function GatedToggle(sel: seq<string>, g: string): (r: seq<string>)
    ensures IsCheckboxDisabled(sel, g) ==> r == sel
    ensures !IsCheckboxDisabled(sel, g) ==> r == Toggle(sel, g)
    ensures Legal(sel) ==> Legal(r)
  {
    if IsCheckboxDisabled(sel, g) then sel else Toggle(sel, g)
  }

  /** The selection after clicking the check-boxes `clicks` in order. */
  function Run(sel: seq<string>, clicks: seq<string>): seq<string>
    decreases |clicks|
  {
    if |clicks| == 0 then sel else Run(GatedToggle(sel, clicks[0]), clicks[1..])
  }

  /** Gated clicks keep any legal selection legal (this covers an empty
      start as well as the placeholder start). */
  lemma {:induction false} RunKeepsLegal(sel: seq<string>, clicks: seq<string>)
    requires Legal(sel)
    ensures Legal(Run(sel, clicks))
    decreases |clicks|
  {
    if |clicks| > 0 {
      RunKeepsLegal(GatedToggle(sel, clicks[0]), clicks[1..]);
    }
  }

  /** What holds of every selection reachable from `Initial` by clicking
      catalog check-boxes: it is legal, the placeholder `""` stays at the
      front, every other entry is a catalog genre, and no special genre is
      ever held. */
  predicate Reachable(sel: seq<string>) {
    && Legal(sel)
    && |sel| >= 1 && sel[0] == ""
    && (forall i :: 1 <= i < |sel| ==> InCatalog(sel[i]))
    && !HasSpecial(sel)
  }

  lemma InitialReachable()
    ensures Reachable(Initial)
  {
  }

  /** Removing a real genre keeps the placeholder first and the remaining
      entries in the catalog. */
  lemma RemoveKeepsReachable(sel: seq<string>, g: string)
    requires Reachable(sel) && g != "" && !IsSpecial(g)
    ensures Reachable(Remove(sel, g))
  {
    var r := Remove(sel, g);
    assert sel == [sel[0]] + sel[1..];
    assert r == [""] + Remove(sel[1..], g);
    RemoveNoDup(sel, g);
    forall i | 1 <= i < |r|
      ensures InCatalog(r[i])
    {
      assert r[i] in sel[1..];
    }
  }

  /** One click on a catalog check-box keeps a selection reachable. */
  lemma ClickKeepsReachable(sel: seq<string>, g: string)
    requires Reachable(sel) && InCatalog(g)
    ensures Reachable(GatedToggle(sel, g))
  {
    CatalogNamesPlain(g);
    if !IsCheckboxDisabled(sel, g) {
      assert !IsSpecial(g);
      if g in sel {
        assert Toggle(sel, g) == Remove(sel, g);
        RemoveKeepsReachable(sel, g);
      } else {
        assert Toggle(sel, g) == sel + [g];
      }
    }
  }

  /** On a reachable selection every catalog click does what the toggle
      handler alone would do, except on the two special genres: a held
      ordinary genre is removed, an absent one is appended while there is
      room, and a special genre's click is refused. */
  lemma ReachableClickProgress(sel: seq<string>, g: string)
    requires Reachable(sel) && InCatalog(g)
    ensures !IsSpecial(g) && g in sel ==> GatedToggle(sel, g) == Remove(sel, g)
    ensures !IsSpecial(g) && g !in sel && |sel| < MaxSelected ==> GatedToggle(sel, g) == sel + [g]
    ensures !IsSpecial(g) && g !in sel && |sel| >= MaxSelected ==> GatedToggle(sel, g) == sel
    ensures IsSpecial(g) ==> GatedToggle(sel, g) == sel
  {
  }

  lemma {:induction false} RunKeepsReachable(sel: seq<string>, clicks: seq<string>)
    requires Reachable(sel)
    requires forall i :: 0 <= i < |clicks| ==> InCatalog(clicks[i])
    ensures Reachable(Run(sel, clicks))
    decreases |clicks|
  {
    if |clicks| > 0 {
      ClickKeepsReachable(sel, clicks[0]);
      RunKeepsReachable(GatedToggle(sel, clicks[0]), clicks[1..]);
    }
  }

  /** Consequences of starting from `[""]`: every reachable selection keeps
      the cap, has no duplicates, never mixes or pairs special genres, holds
      at most four real genres, and has both special genres' check-boxes
      disabled. */
  lemma ReachableFromInitial(clicks: seq<string>)
    requires forall i :: 0 <= i < |clicks| ==> InCatalog(clicks[i])
    ensures var sel := Run(Initial, clicks);
      && |sel| <= MaxSelected
      && NoDup(sel)
      && Unmixed(sel)
      && |sel| >= 1 && sel[0] == "" && "" !in sel[1..] && |sel[1..]| <= MaxSelected - 1
      && IsGenreDisabled(sel, Documentary)
      && IsGenreDisabled(sel, TvMovie)
  {
    InitialReachable();
    RunKeepsReachable(Initial, clicks);
    var sel := Run(Initial, clicks);
    forall i | 1 <= i < |sel|
      ensures sel[i] != ""
    {
      CatalogNamesPlain(sel[i]);
    }
  }

  /** From an empty selection the rule admits exactly one special genre on its
      own: Action goes in, Documentary is refused, Action comes out,
      Documentary goes in, and then both Action and TV Movie are refused. */
  lemma EmptyStartScenario()
    ensures GatedToggle([], Action) == [Action]
    ensures GatedToggle([Action], Documentary) == [Action]
    ensures GatedToggle([Action], Action) == []
    ensures GatedToggle([], Documentary) == [Documentary]
    ensures GatedToggle([Documentary], Action) == [Documentary]
    ensures GatedToggle([Documentary], TvMovie) == [Documentary]
  {
    assert Toggle([Action], Action) == [];
  }

  /** Five entries held: an unselected genre is refused and nothing changes. */
  lemma CapScenario()
    ensures GatedToggle([Action, Comedy, Drama, Thriller, Crime], Horror)
         == [Action, Comedy, Drama, Thriller, Crime]
  {
  }
}
