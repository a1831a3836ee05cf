/**
  Building a launch request: the environment-variable string of
  `click_launch` (run_gui.py:858-874, 894) and its reading in the batch
  thread (run_gui.py:1195-1199), the reservation check (run_gui.py:986-995),
  the core/node count callback (run_gui.py:644-668), the `sbatch` command of
  an interactive job (run_gui.py:921-954), the DISPLAY check
  (run_gui.py:826-849), the node description (run_gui.py:615-630) and the
  combobox default (run_gui.py:1252-1272).
*/
module Submission {
  import opened Wrappers
  import opened Text
  import opened Numeric

  // ---------------------------------------------------------------------
  // Environment variables

  /** No comma directly follows another. */
  ghost predicate NoDoubleComma(s: string) {
    forall k, j :: 0 <= k < j < |s| && j == k + 1 ==> !(s[k] == ',' && s[j] == ',')
  }

  /** The form `click_launch` leaves the variable list in: no blanks, no empty items, no comma at either end. */
  ghost predicate NormalEnv(s: string) {
    ' ' !in s && NoDoubleComma(s) && (s == [] || (s[0] != ',' && s[|s| - 1] != ','))
  }

  /** `re.sub(",+", ",", s)`: every run of commas becomes one comma. */
  function CollapseCommas(s: string): (r: string)
    ensures NoDoubleComma(r)
    ensures NoDoubleComma(s) ==> r == s
    ensures ' ' !in s ==> ' ' !in r
    ensures s != [] ==> r != [] && r[0] == s[0] && r[|r| - 1] == s[|s| - 1]
    decreases |s|
  {
    if |s| < 2 then s
    else if s[0] == ',' && s[1] == ',' then CollapseCommas(s[1..])
    else
      var rest := CollapseCommas(s[1..]);
      assert ' ' !in s ==> s[0] != ' ' && ' ' !in s[1..];
      [s[0]] + rest
  }

  /** `s.lstrip(",")`. */
  function LStripCommas(s: string): (r: string)
    ensures |r| <= |s| && r == s[|s| - |r|..]
    ensures forall k :: 0 <= k < |s| - |r| ==> s[k] == ','
    ensures r == [] || r[0] != ','
    ensures s == [] || s[0] != ',' ==> r == s
    decreases |s|
  {
    if s != [] && s[0] == ',' then LStripCommas(s[1..]) else s
  }

  /** `s.rstrip(",")`. */
  function RStripCommas(s: string): (r: string)
    ensures |r| <= |s| && r == s[..|r|]
    ensures forall k :: |r| <= k < |s| ==> s[k] == ','
    ensures r == [] || r[|r| - 1] != ','
    ensures s == [] || s[|s| - 1] != ',' ==> r == s
    decreases |s|
  {
    if s != [] && s[|s| - 1] == ',' then RStripCommas(s[..|s| - 1]) else s
  }

  /** A piece of a text in normal form keeps it, apart from the ends. */
  lemma SliceKeepsForm(s: string, i: nat, j: nat)
    requires i <= j <= |s| && ' ' !in s && NoDoubleComma(s)
    ensures ' ' !in s[i..j] && NoDoubleComma(s[i..j])
  {
    assert forall k :: 0 <= k < j - i ==> s[i..j][k] == s[i + k];
  }

  /** The three clean-up steps of `click_launch`: blanks removed, comma runs collapsed, edge commas stripped. */
  function CleanEnv(env: string): (r: string)
    ensures NormalEnv(r)
    ensures NormalEnv(env) ==> r == env
    ensures r == Join(Items(Remove(env, ' ')), ",")
  {
    if env == [] then []
    else
      var a := Remove(env, ' ');
      var b := CollapseCommas(a);
      var c := RStripCommas(b);
      var d := LStripCommas(c);
      SliceKeepsForm(b, 0, |c|);
      SliceKeepsForm(c, |c| - |d|, |c|);
      assert d != [] ==> d[|d| - 1] == c[|c| - 1];
      CollapseItems(a);
      RStripItems(b);
      LStripItems(c);
      NormalItems(d);
      d
  }

  /** The non-empty items of a list, in order. */
  function NonEmpty(parts: seq<string>): (r: seq<string>)
    ensures |r| <= |parts|
    ensures forall i :: 0 <= i < |r| ==> r[i] != []
    decreases |parts|
  {
    if parts == [] then []
    else (if parts[0] == [] then [] else [parts[0]]) + NonEmpty(parts[1..])
  }

  /** The variables a comma-separated list names: the non-empty items of `s.split(",")`, in order. */
  function Items(s: string): seq<string> {
    NonEmpty(Split(s, ','))
  }

  lemma SplitCons(c: char, t: string)
    ensures Split([c] + t, ',') ==
            if c == ',' then [[]] + Split(t, ',') else [[c] + Split(t, ',')[0]] + Split(t, ',')[1..]
  {
    assert ([c] + t)[1..] == t;
  }

  lemma NonEmptyCons(p: string, ps: seq<string>)
    ensures NonEmpty([p] + ps) == (if p == [] then [] else [p]) + NonEmpty(ps)
  {
    assert ([p] + ps)[1..] == ps;
  }

  lemma {:induction false} NonEmptyAppend(p: seq<string>, q: seq<string>)
    ensures NonEmpty(p + q) == NonEmpty(p) + NonEmpty(q)
    decreases |p|
  {
    if p == [] {
      assert p + q == q;
    } else {
      assert p + q == [p[0]] + (p[1..] + q);
      NonEmptyCons(p[0], p[1..] + q);
      NonEmptyAppend(p[1..], q);
    }
  }

  lemma {:induction false} NonEmptyAll(p: seq<string>)
    requires forall i :: 0 <= i < |p| ==> p[i] != []
    ensures NonEmpty(p) == p
    decreases |p|
  {
    if p != [] {
      NonEmptyAll(p[1..]);
    }
  }

  /** The items of a list are its first item, if not empty, then the non-empty ones after it. */
  lemma ItemsFromSplit(s: string)
    ensures var p := Split(s, ',');
            Items(s) == (if p[0] == [] then [] else [p[0]]) + NonEmpty(p[1..])
  {
    var p := Split(s, ',');
    assert p == [p[0]] + p[1..];
    NonEmptyCons(p[0], p[1..]);
  }

  /** `r` has the first item of `s` and the same non-empty items after it. */
  ghost predicate SameTail(s: string, r: string) {
    Split(r, ',')[0] == Split(s, ',')[0] && NonEmpty(Split(r, ',')[1..]) == NonEmpty(Split(s, ',')[1..])
  }

  /** Collapsing comma runs keeps the first item and the non-empty items after it. */
  lemma {:induction false} CollapseSplit(s: string)
    ensures SameTail(s, CollapseCommas(s))
    decreases |s|
  {
    if |s| >= 2 {
      var t := s[1..];
      assert s == [s[0]] + t;
      CollapseSplit(t);
      var r := CollapseCommas(t);
      if s[0] == ',' && s[1] == ',' {
        DoubleCommaTail(t, r);
      } else {
        assert CollapseCommas(s) == [s[0]] + r;
        ConsTail(s[0], t, r);
      }
    }
  }

  lemma DoubleCommaTail(t: string, r: string)
    requires t != [] && t[0] == ',' && SameTail(t, r)
    ensures SameTail([','] + t, r)
  {
    assert t == [','] + t[1..];
    SplitCons(',', t[1..]);
    SplitCons(',', t);
    NonEmptyCons([], Split(t[1..], ','));
  }

  lemma ConsTail(c: char, t: string, r: string)
    requires SameTail(t, r)
    ensures SameTail([c] + t, [c] + r)
  {
    SplitCons(c, t);
    SplitCons(c, r);
    if c == ',' {
      ItemsFromSplit(r);
      ItemsFromSplit(t);
    }
  }

  /** `re.sub(",+", ",")` keeps the items of the list, in order. */
  lemma CollapseItems(s: string)
    ensures Items(CollapseCommas(s)) == Items(s)
  {
    CollapseSplit(s);
    ItemsFromSplit(s);
    ItemsFromSplit(CollapseCommas(s));
  }

  /** `lstrip(",")` keeps the items of the list. */
  lemma {:induction false} LStripItems(s: string)
    ensures Items(LStripCommas(s)) == Items(s)
    decreases |s|
  {
    if s != [] && s[0] == ',' {
      LStripItems(s[1..]);
      assert s == [','] + s[1..];
      SplitCons(',', s[1..]);
      NonEmptyCons([], Split(s[1..], ','));
    }
  }

  /** A comma at the end of a text adds one empty item. */
  lemma {:induction false} SplitSnocComma(a: string)
    ensures Split(a + [','], ',') == Split(a, ',') + [[]]
    decreases |a|
  {
    if a == [] {
      SplitCons(',', []);
    } else {
      var t := a[1..];
      SplitSnocComma(t);
      assert a + [','] == [a[0]] + (t + [',']);
      assert a == [a[0]] + t;
      SnocCons(a[0], t);
    }
  }

  lemma SnocCons(c: char, t: string)
    requires Split(t + [','], ',') == Split(t, ',') + [[]]
    ensures Split([c] + (t + [',']), ',') == Split([c] + t, ',') + [[]]
  {
    var q := Split(t, ',');
    assert (q + [[]])[0] == q[0] && (q + [[]])[1..] == q[1..] + [[]];
    SplitCons(c, t + [',']);
    SplitCons(c, t);
  }

  /** `rstrip(",")` keeps the items of the list. */
  lemma {:induction false} RStripItems(s: string)
    ensures Items(RStripCommas(s)) == Items(s)
    decreases |s|
  {
    if s != [] && s[|s| - 1] == ',' {
      var init := s[..|s| - 1];
      RStripItems(init);
      assert s == init + [','];
      SplitSnocComma(init);
      NonEmptyAppend(Split(init, ','), [[]]);
      NonEmptyCons([], []);
    }
  }

  ghost predicate AllNonEmpty(parts: seq<string>) {
    forall i :: 0 <= i < |parts| ==> parts[i] != []
  }

  /** A list with no empty item and no comma at either end. */
  ghost predicate CleanItems(s: string) {
    s != [] && s[0] != ',' && s[|s| - 1] != ',' && NoDoubleComma(s)
  }

  /** In a list with no empty item and no comma at either end, every item of the split is non-empty. */
  lemma {:induction false} PartsNonEmpty(s: string)
    requires CleanItems(s)
    ensures AllNonEmpty(Split(s, ','))
    decreases |s|
  {
    var t := s[1..];
    assert s == [s[0]] + t;
    if t == [] {
      SplitCons(s[0], t);
    } else if t[0] == ',' {
      var u := t[1..];
      CleanAfterComma(s);
      PartsNonEmpty(u);
      assert s == [s[0]] + ([','] + u);
      CommaPartsNonEmpty(s[0], u);
    } else {
      CleanTail(s);
      PartsNonEmpty(t);
      SplitCons(s[0], t);
    }
  }

  lemma CleanTail(s: string)
    requires CleanItems(s) && |s| >= 2 && s[1] != ','
    ensures CleanItems(s[1..])
  {
    TailNoDoubleComma(s);
  }

  lemma CleanAfterComma(s: string)
    requires CleanItems(s) && |s| >= 2 && s[1] == ','
    ensures |s| >= 3 && CleanItems(s[2..])
  {
    assert !(s[1] == ',' && s[2] == ',');
    TailNoDoubleComma(s);
    TailNoDoubleComma(s[1..]);
    assert s[1..][1..] == s[2..];
  }

  lemma CommaPartsNonEmpty(c: char, u: string)
    requires c != ',' && AllNonEmpty(Split(u, ','))
    ensures AllNonEmpty(Split([c] + ([','] + u), ','))
  {
    SplitCons(',', u);
    SplitCons(c, [','] + u);
  }

  /** A list in normal form is its items joined by commas. */
  lemma NormalItems(r: string)
    requires NormalEnv(r)
    ensures Join(Items(r), ",") == r
  {
    if r != [] {
      PartsNonEmpty(r);
      NonEmptyAll(Split(r, ','));
      JoinSplit(r, ',');
    }
  }

  /** Cleaning twice is cleaning once. */
  lemma CleanIdempotent(env: string)
    ensures CleanEnv(CleanEnv(env)) == CleanEnv(env)
  {
  }

  /**
    Blanks, an empty item and a trailing comma disappear: two lists in
    normal form written with `",, ,"` between them and a comma after them
    come out joined by one comma.
  */
  lemma EmptyItemsDropped(u: string, v: string)
    requires NormalEnv(u) && NormalEnv(v) && u != [] && v != []
    ensures CleanEnv(u + ",, ," + v + ",") == u + "," + v
  {
    var env := u + ",, ," + v + ",";
    var a := u + ",,," + v + ",";
    var b := u + "," + v + ",";
    var c := u + "," + v;
    BlankGone(u, v);
    CommaRunCollapsed(u, v);
    TrailingCommaGone(u, v);
    assert c[0] == u[0];
    CleanSteps(env, a, b, c);
  }

  lemma BlankGone(u: string, v: string)
    requires ' ' !in u && ' ' !in v
    ensures Remove(u + ",, ," + v + ",", ' ') == u + ",,," + v + ","
  {
    BlankShape(u, v);
    RemoveOneBlank(u + ",,", "," + v + ",");
  }

  lemma BlankShape(u: string, v: string)
    ensures u + ",, ," + v + "," == (u + ",,") + " " + ("," + v + ",")
    ensures u + ",,," + v + "," == (u + ",,") + ("," + v + ",")
  {
  }

  lemma TrailingCommaGone(u: string, v: string)
    requires v != [] && v[|v| - 1] != ','
    ensures RStripCommas(u + "," + v + ",") == u + "," + v
  {
    var c := u + "," + v;
    DropLast(c, ',');
    assert c[|c| - 1] == v[|v| - 1];
  }

  lemma DropLast(c: string, x: char)
    ensures (c + [x])[..|c|] == c && |c + [x]| == |c| + 1 && (c + [x])[|c|] == x
  {
  }

  /** The clean-up, one stage at a time, for a result that starts with no comma. */
  lemma CleanSteps(env: string, a: string, b: string, c: string)
    requires env != [] && Remove(env, ' ') == a && CollapseCommas(a) == b && RStripCommas(b) == c
    requires c == [] || c[0] != ','
    ensures CleanEnv(env) == c
  {
  }

  /** One blank between two blank-free texts is all that `Remove` takes out. */
  lemma RemoveOneBlank(x: string, y: string)
    requires ' ' !in x && ' ' !in y
    ensures Remove(x + " " + y, ' ') == x + y
  {
    AppendAssoc(x, " ", y);
    RemoveAppend(x, " " + y, ' ');
    RemoveAppend(" ", y, ' ');
    assert Remove(" ", ' ') == [];
  }

  /** A run of three commas between two lists in normal form collapses to one. */
  lemma CommaRunCollapsed(u: string, v: string)
    requires NormalEnv(u) && NormalEnv(v) && u != [] && v != []
    ensures CollapseCommas(u + ",,," + v + ",") == u + "," + v + ","
  {
    var t1 := "," + v + ",";
    var t2 := "," + t1;
    var t3 := "," + t2;
    RunShape(u, v);
    CollapseAfter(u, t3);
    DoubledComma(t2);
    DoubledComma(t1);
    WrappedNoDoubleComma(v);
  }

  lemma RunShape(u: string, v: string)
    ensures u + ",,," + v + "," == u + ("," + ("," + ("," + v + ",")))
    ensures u + ("," + v + ",") == u + "," + v + ","
  {
  }

  lemma AppendAssoc(a: string, b: string, c: string)
    ensures a + b + c == a + (b + c)
  {
  }

  /** A comma ahead of a comma is dropped. */
  lemma DoubledComma(t: string)
    requires t != [] && t[0] == ','
    ensures CollapseCommas("," + t) == CollapseCommas(t)
  {
    assert ("," + t)[1..] == t;
  }

  /** A list in normal form with one comma on each side has no doubled comma. */
  lemma WrappedNoDoubleComma(v: string)
    requires NormalEnv(v) && v != []
    ensures NoDoubleComma("," + v + ",")
  {
    var t := "," + v + ",";
    forall k | 0 <= k < |t| - 1 ensures !(t[k] == ',' && t[k + 1] == ',') {
      if k == 0 {
        assert t[1] == v[0];
      } else if k == |t| - 2 {
        assert t[k] == v[|v| - 1];
      } else {
        assert t[k] == v[k - 1] && t[k + 1] == v[k];
      }
    }
  }

  /** Text with no doubled comma and no comma at its end is kept as it is ahead of whatever follows. */
  lemma {:induction false} CollapseAfter(a: string, b: string)
    requires NoDoubleComma(a) && a != [] && a[|a| - 1] != ','
    ensures CollapseCommas(a + b) == a + CollapseCommas(b)
    decreases |a|
  {
    if |a| == 1 || b == [] {
      CollapseAfterShort(a, b);
    } else {
      var s := a + b;
      var r := CollapseCommas(b);
      assert s[0] == a[0] && s[1] == a[1] && s[1..] == a[1..] + b;
      TailNoDoubleComma(a);
      calc {
        CollapseCommas(s);
        { CollapseStep(s); }
        [a[0]] + CollapseCommas(a[1..] + b);
        { CollapseAfter(a[1..], b); }
        [a[0]] + (a[1..] + r);
        { ConsAppend(a, r); }
        a + r;
      }
    }
  }

  /** The base cases of `CollapseAfter`: one character ahead, or nothing behind. */
  lemma CollapseAfterShort(a: string, b: string)
    requires NoDoubleComma(a) && a != [] && a[|a| - 1] != ','
    requires |a| == 1 || b == []
    ensures CollapseCommas(a + b) == a + CollapseCommas(b)
  {
    if b == [] {
      assert a + b == a && a + [] == a;
    } else {
      var s := a + b;
      assert s[0] == a[0] && s[1..] == b;
      CollapseStep(s);
      assert [a[0]] == a;
    }
  }

  lemma ConsAppend(a: string, r: string)
    requires a != []
    ensures [a[0]] + (a[1..] + r) == a + r
  {
    assert [a[0]] + a[1..] == a;
  }

  /** A text that does not start with two commas keeps its first character in front. */
  lemma CollapseStep(s: string)
    requires |s| >= 2 && !(s[0] == ',' && s[1] == ',')
    ensures CollapseCommas(s) == [s[0]] + CollapseCommas(s[1..])
  {
  }

  lemma TailNoDoubleComma(a: string)
    requires NoDoubleComma(a) && a != []
    ensures NoDoubleComma(a[1..])
  {
    forall k | 0 <= k < |a[1..]| - 1 ensures !(a[1..][k] == ',' && a[1..][k + 1] == ',') {
      assert a[1..][k] == a[k + 1] && a[1..][k + 1] == a[k + 2];
    }
  }

  /** `f"{name}={value}"` for each administrator variable, in order. */
  function AdminAssignments(admin: seq<(string, string)>): (r: seq<string>)
    ensures |r| == |admin|
    decreases |admin|
  {
    if admin == [] then []
    else AdminAssignments(admin[..|admin| - 1]) + [admin[|admin| - 1].0 + "=" + admin[|admin| - 1].1]
  }

  /** The variable list before clean-up: the user's text, then `","` and the administrator variables, if any. */
  function RawEnv(userEnv: string, admin: seq<(string, string)>): string {
    (if userEnv != [] then userEnv else []) + (if admin != [] then "," + Join(AdminAssignments(admin), ",") else [])
  }

  /** The `env` string `click_launch` hands to both launch paths. */
  function LaunchEnv(userEnv: string, admin: seq<(string, string)>): (r: string)
    ensures NormalEnv(r)
  {
    CleanEnv(RawEnv(userEnv, admin))
  }

  /** Two texts in normal form joined by one comma are in normal form. */
  lemma NormalJoin2(a: string, b: string)
    requires NormalEnv(a) && NormalEnv(b) && a != [] && b != []
    ensures NormalEnv(a + "," + b)
  {
    var s := a + "," + b;
    forall k | 0 <= k < |s| - 1 ensures !(s[k] == ',' && s[k + 1] == ',') {
      if k < |a| - 1 {
        assert s[k] == a[k] && s[k + 1] == a[k + 1];
      } else if k == |a| - 1 {
        assert s[k] == a[|a| - 1];
      } else if k == |a| {
        assert s[k + 1] == b[0];
      } else {
        assert s[k] == b[k - |a| - 1] && s[k + 1] == b[k - |a|];
      }
    }
    assert forall c :: c in s ==> c in a || c == ',' || c in b;
  }

  /** Joining non-empty items that are in normal form gives a text in normal form. */
  lemma {:induction false} NormalJoin(parts: seq<string>)
    requires parts != []
    requires forall i :: 0 <= i < |parts| ==> parts[i] != [] && NormalEnv(parts[i])
    ensures Join(parts, ",") != [] && NormalEnv(Join(parts, ","))
    decreases |parts|
  {
    if |parts| > 1 {
      NormalJoin(parts[1..]);
      NormalJoin2(parts[0], Join(parts[1..], ","));
    }
  }

  /** A variable name or value that survives the round trip through the list: no blank, comma or `=`. */
  predicate PlainWord(w: string) {
    ' ' !in w && ',' !in w && '=' !in w
  }

  lemma {:induction false} AssignmentsAt(admin: seq<(string, string)>, i: nat)
    requires i < |admin|
    ensures AdminAssignments(admin)[i] == admin[i].0 + "=" + admin[i].1
    decreases |admin|
  {
    if i < |admin| - 1 {
      AssignmentsAt(admin[..|admin| - 1], i);
    }
  }

  lemma AssignmentsNormal(admin: seq<(string, string)>)
    requires forall i :: 0 <= i < |admin| ==> PlainWord(admin[i].0) && PlainWord(admin[i].1)
    ensures forall i :: 0 <= i < |admin| ==>
              AdminAssignments(admin)[i] != [] && NormalEnv(AdminAssignments(admin)[i])
              && ',' !in AdminAssignments(admin)[i]
  {
    forall i | 0 <= i < |admin|
      ensures AdminAssignments(admin)[i] != [] && NormalEnv(AdminAssignments(admin)[i])
              && ',' !in AdminAssignments(admin)[i]
    {
      AssignmentsAt(admin, i);
      var w := admin[i].0 + "=" + admin[i].1;
      assert forall c :: c in w ==> c in admin[i].0 || c == '=' || c in admin[i].1;
      assert forall k :: 0 <= k < |w| ==> w[k] in w;
    }
  }

  /**
    The administrator variables are appended after the user's list as
    `name=value` items, and with no user list they are the whole list.
  */
  lemma AdminAppended(userEnv: string, admin: seq<(string, string)>)
    requires NormalEnv(userEnv) && admin != []
    requires forall i :: 0 <= i < |admin| ==> PlainWord(admin[i].0) && PlainWord(admin[i].1)
    ensures LaunchEnv(userEnv, admin) ==
            (if userEnv != [] then userEnv + "," else []) + Join(AdminAssignments(admin), ",")
  {
    var j := Join(AdminAssignments(admin), ",");
    assert NormalEnv(j) && j != [] by {
      AssignmentsNormal(admin);
      NormalJoin(AdminAssignments(admin));
    }
    assert RawEnv(userEnv, admin) == userEnv + ("," + j);
    CleanJoined(userEnv, j);
  }

  /** A list in normal form, then a comma and another such list, comes out of the clean-up unchanged, or without the comma when the first list is empty. */
  lemma CleanJoined(userEnv: string, j: string)
    requires NormalEnv(userEnv) && NormalEnv(j) && j != []
    ensures CleanEnv(userEnv + ("," + j)) == (if userEnv != [] then userEnv + "," else []) + j
  {
    if userEnv != [] {
      NormalJoin2(userEnv, j);
      assert userEnv + ("," + j) == userEnv + "," + j;
    } else {
      assert userEnv + ("," + j) == "," + j;
      LeadingCommaCleaned(j);
    }
  }

  /** A list in normal form behind one leading comma comes out of the clean-up without it. */
  lemma LeadingCommaCleaned(j: string)
    requires NormalEnv(j) && j != []
    ensures CleanEnv("," + j) == j
  {
    var raw := "," + j;
    assert NoDoubleComma(raw) by {
      forall k | 0 <= k < |raw| - 1 ensures !(raw[k] == ',' && raw[k + 1] == ',') {
        if k == 0 { assert raw[1] == j[0]; } else { assert raw[k] == j[k - 1] && raw[k + 1] == j[k]; }
      }
    }
    assert ' ' !in raw by {
      assert forall c :: c in raw ==> c == ',' || c in j;
    }
    assert RStripCommas(raw) == raw;
    assert raw[1..] == j;
  }

  /** `env[4:]`: the batch launch path drops the first four characters, meant to be the leading `ALL,`. */
  function BatchEnvText(env: string): (r: string)
    ensures |env| >= 4 ==> env == env[..4] + r
    ensures |env| <= 4 ==> r == []
  {
    Slice(env, 4, |env|)
  }

  /** A list that starts with `ALL,` loses exactly that. */
  lemma BatchEnvDropsAll(rest: string)
    ensures BatchEnvText("ALL," + rest) == rest
  {
    var env := "ALL," + rest;
    assert env == env[..4] + BatchEnvText(env);
    assert env[4..] == rest;
  }

  /** `variable, value = item.split("=")`: exactly one `=`, or `ValueError`. */
  function Assignment(item: string): (r: Option<(string, string)>)
    ensures r.Some? ==> '=' !in r.value.0 && '=' !in r.value.1
  {
    var kv := Split(item, '=');
    if |kv| == 2 then Some((kv[0], kv[1])) else None
  }

  /** The environment after the assignments of `items`, in order; None once one raises `ValueError`. */
  function ApplyItems(base: map<string, string>, items: seq<string>): (r: Option<map<string, string>>)
    ensures r.Some? <==> forall i :: 0 <= i < |items| ==> Assignment(items[i]).Some?
    ensures r.Some? ==> base.Keys <= r.value.Keys
    decreases |items|
  {
    if items == [] then Some(base)
    else
      assert forall i :: 0 <= i < |items| - 1 ==> items[..|items| - 1][i] == items[i];
      match ApplyItems(base, items[..|items| - 1])
      case None => None
      case Some(m) =>
        match Assignment(items[|items| - 1])
        case None => None
        case Some(kv) => Some(m[kv.0 := kv.1])
  }

  /** The environment `_submit_batch_thread` starts the program with, or None where it raises. */
  function BatchEnvironment(base: map<string, string>, env: string): (r: Option<map<string, string>>)
    ensures r.Some? <==> env == [] || forall i :: 0 <= i < |Split(env, ',')| ==> Assignment(Split(env, ',')[i]).Some?
    ensures r.Some? ==> base.Keys <= r.value.Keys
  {
    if env == [] then Some(base)
    else
      var items := Split(env, ',');
      assert forall i :: 0 <= i < |Split(env, ',')| ==> Split(env, ',')[i] == items[i];
      ApplyItems(base, items)
  }

  /** The variables of `admin` set in turn, a later one overriding an earlier one of the same name. */
  function Updated(base: map<string, string>, admin: seq<(string, string)>): (m: map<string, string>)
    ensures forall i :: 0 <= i < |admin| ==> admin[i].0 in m
    ensures base.Keys <= m.Keys
    decreases |admin|
  {
    if admin == [] then base
    else
      var last := admin[|admin| - 1];
      var m := Updated(base, admin[..|admin| - 1]);
      assert forall i :: 0 <= i < |admin| - 1 ==> admin[..|admin| - 1][i] == admin[i];
      m[last.0 := last.1]
  }

  /**
    Every variable the list names is set, to the value of its last entry;
    every other variable keeps the value it had.
  */
  lemma {:induction false} UpdatedAt(base: map<string, string>, admin: seq<(string, string)>, k: string)
    ensures k in Updated(base, admin) <==> k in base || exists i :: 0 <= i < |admin| && admin[i].0 == k
    ensures k in base && (forall i :: 0 <= i < |admin| ==> admin[i].0 != k) ==> Updated(base, admin)[k] == base[k]
    ensures forall i :: 0 <= i < |admin| && admin[i].0 == k && (forall j :: i < j < |admin| ==> admin[j].0 != k) ==>
              Updated(base, admin)[k] == admin[i].1
    decreases |admin|
  {
    if admin != [] {
      var init := admin[..|admin| - 1];
      UpdatedAt(base, init, k);
      assert forall i :: 0 <= i < |init| ==> init[i] == admin[i];
      forall i | 0 <= i < |admin| && admin[i].0 == k && (forall j :: i < j < |admin| ==> admin[j].0 != k)
        ensures Updated(base, admin)[k] == admin[i].1
      {
        if i < |init| {
          assert forall j :: i < j < |init| ==> init[j].0 != k;
        }
      }
    }
  }

  /** `name=value` reads back as the pair it was written from. */
  lemma AssignmentOf(name: string, value: string)
    requires '=' !in name && '=' !in value
    ensures Assignment(name + "=" + value) == Some((name, value))
  {
    SplitPrefix(name, value, '=');
    SplitNoSep(value, '=');
  }

  lemma {:induction false} ApplyAssignments(base: map<string, string>, admin: seq<(string, string)>)
    requires forall i :: 0 <= i < |admin| ==> PlainWord(admin[i].0) && PlainWord(admin[i].1)
    ensures ApplyItems(base, AdminAssignments(admin)) == Some(Updated(base, admin))
    decreases |admin|
  {
    if admin != [] {
      var init := admin[..|admin| - 1];
      var last := admin[|admin| - 1];
      ApplyAssignments(base, init);
      var items := AdminAssignments(admin);
      assert items[..|items| - 1] == AdminAssignments(init);
      AssignmentOf(last.0, last.1);
    }
  }

  /**
    The batch thread reads back what `click_launch` wrote: a list of
    `name=value` items sets each variable, later items winning.
  */
  lemma BatchEnvRoundTrip(base: map<string, string>, admin: seq<(string, string)>)
    requires admin != []
    requires forall i :: 0 <= i < |admin| ==> PlainWord(admin[i].0) && PlainWord(admin[i].1)
    ensures BatchEnvironment(base, Join(AdminAssignments(admin), ",")) == Some(Updated(base, admin))
  {
    AssignmentsNormal(admin);
    NormalJoin(AdminAssignments(admin));
    SplitJoin(AdminAssignments(admin), ',');
    ApplyAssignments(base, admin);
  }

  /** An item without exactly one `=` anywhere in the list stops the batch launch. */
  lemma {:induction false} BatchEnvRejects(base: map<string, string>, items: seq<string>, i: nat)
    requires i < |items| && Assignment(items[i]).None?
    ensures ApplyItems(base, items).None?
    decreases |items|
  {
    if i < |items| - 1 {
      BatchEnvRejects(base, items[..|items| - 1], i);
    }
  }

  /** The loop of `_submit_batch_thread` over the items of `env`. */
  method BuildBatchEnvironment(base: map<string, string>, env: string) returns (r: Option<map<string, string>>)
    ensures r == BatchEnvironment(base, env)
  {
    var envVars := base;
    if env != [] {
      var items := Split(env, ',');
      var i := 0;
      while i < |items|
        invariant 0 <= i <= |items|
        invariant ApplyItems(base, items[..i]) == Some(envVars)
      {
        assert items[..i + 1][..i] == items[..i];
        var kv := Split(items[i], '=');
        if |kv| != 2 {
          BatchEnvRejects(base, items, i);
          return None;
        }
        envVars := envVars[kv[0] := kv[1]];
        i := i + 1;
      }
      assert items[..i] == items;
    }
    r := Some(envVars);
  }

  // ---------------------------------------------------------------------
  // Reservation

  /** What `check_reservation` returns, and whether it warned that the id is missing. */
  datatype ReservationChoice = ReservationChoice(reservation: bool, id: string, warned: bool)

  /** `click_launch` goes no further when a reservation is asked for without an id. */
  predicate LaunchAborts(c: ReservationChoice) {
    c.reservation && c.id == []
  }

  function CheckReservation(checked: bool, idText: string): (c: ReservationChoice)
    ensures c.reservation == checked
    ensures c.id == if checked then idText else []
    ensures c.warned <==> LaunchAborts(c)
  {
    ReservationChoice(checked, if checked then idText else [], checked && idText == [])
  }

  /**
    The request `click_launch` hands to `submit_interactive_job`: the
    window's settings with the cleaned variable list and the reservation
    choice.
  */
  function LaunchRequest(form: InteractiveRequest, userEnv: string, admin: seq<(string, string)>,
                         c: ReservationChoice): (req: InteractiveRequest)
    ensures NormalEnv(req.env)
    ensures req.reservation == c.reservation && req.reservationId == c.id
  {
    form.(env := LaunchEnv(userEnv, admin), reservation := c.reservation, reservationId := c.id)
  }

  // ---------------------------------------------------------------------
  // Core and node counts

  /** The cores and memory of one node of a queue. */
  datatype QueueSpec = QueueSpec(cores: int, ram: int)

  /** `int(value or 0)`: an empty box counts as 0. */
  function CountOf(text: string): Option<int> {
    ParseInt(if text == [] then "0" else text)
  }

  /** What the count callback leaves in the box and the summary line, and the warning it raises, if any. */
  datatype CountUpdate = CountUpdate(value: string, summary: Option<string>, warning: Option<string>)

  const IntegerWarning := "Nodes Value must be integer"

  /**
    `evt_num_cores_nodes_change`: a count that is not an integer or is
    negative is replaced by 1; per core, a count above the queue's cores per
    node is lowered to it; the summary states the cores and memory asked for.
  */
  function CountChanged(text: string, perCore: bool, spec: QueueSpec): (u: CountUpdate)
    ensures CountOf(text).None? ==> u == CountUpdate("1", None, Some(IntegerWarning))
    ensures CountOf(text).Some? && CountOf(text).value < 0 ==> u == CountUpdate("1", None, None)
    ensures CountOf(text).Some? && CountOf(text).value >= 0 ==> u.warning.None?
    ensures !perCore && CountOf(text).Some? && CountOf(text).value >= 0 ==>
              var n := CountOf(text).value;
              && u.value == text
              && u.summary == Some("You request " + IntToString(spec.cores * n) + " Cores and "
                                   + IntToString(spec.ram * n) + "GB RAM")
    ensures perCore && CountOf(text).Some? && CountOf(text).value >= 0 ==>
              && (u.value == text || u.value == IntToString(spec.cores))
              && u.summary == Some("You request " + u.value + " Cores and " + IntToString(spec.ram) + "GB of shared RAM")
  {
    match CountOf(text)
    case None => CountUpdate("1", None, Some(IntegerWarning))
    case Some(n) =>
      if n < 0 then CountUpdate("1", None, None)
      else if perCore then
        var value := if n > spec.cores then IntToString(spec.cores) else text;
        CountUpdate(value, Some("You request " + value + " Cores and " + IntToString(spec.ram) + "GB of shared RAM"), None)
      else
        CountUpdate(text, Some("You request " + IntToString(spec.cores * n) + " Cores and "
                               + IntToString(spec.ram * n) + "GB RAM"), None)
  }

  /** Per core, the box afterwards holds the count capped at the queue's cores per node. */
  lemma CountCapped(text: string, spec: QueueSpec)
    requires CountOf(text).Some? && CountOf(text).value >= 0
    ensures CountOf(CountChanged(text, true, spec).value) ==
            Some(if CountOf(text).value > spec.cores then spec.cores else CountOf(text).value)
  {
    ParseIntToString(spec.cores);
  }

  /** Running the callback again on what it left changes nothing more, for a queue with at least one core per node. */
  lemma CountSettled(text: string, perCore: bool, spec: QueueSpec)
    requires spec.cores >= 1
    ensures var u := CountChanged(text, perCore, spec);
            CountChanged(u.value, perCore, spec).value == u.value
  {
    var u := CountChanged(text, perCore, spec);
    assert CountOf("1") == Some(1) by {
      ParseIntToString(1);
      assert IntToString(1) == "1";
    }
    match CountOf(text)
    case None =>
      assert u.value == "1";
    case Some(n) =>
      if n < 0 {
        assert u.value == "1";
      } else if perCore && n > spec.cores {
        assert u.value == IntToString(spec.cores);
        ParseIntToString(spec.cores);
        assert CountOf(u.value) == Some(spec.cores);
      } else {
        assert u.value == text;
      }
  }

  // ---------------------------------------------------------------------
  // The interactive `sbatch` command

  /** The window's settings that shape an interactive submission. */
  datatype InteractiveRequest = InteractiveRequest(
    queue: string,
    env: string,
    display: string,
    perCore: bool,
    countText: string,
    nodeListChecked: bool,
    nodeListText: string,
    reservation: bool,
    reservationId: string,
    aedtPath: string)

  /** Why `submit_interactive_job` builds no command: `int()` raised, or the count is below 1. */
  datatype CommandError = NotAnInteger | NotPositive

  const PositiveWarning := "Nodes Value must be a positive integer"

  /** The cores asked for: the count itself per core, cores per node times the count per node. */
  function TotalCores(perCore: bool, n: int, coresPerNode: int): int {
    if perCore then n else coresPerNode * n
  }

  /** `" ".join([<path>/ansysedt, "-machinelist", "num=<total>"])`, in double quotes: the `--wrap` value. */
  function WrapValue(aedtPath: string, total: int): string {
    "\"" + Join([PathJoin(aedtPath, "ansysedt"), "-machinelist", "num=" + IntToString(total)], " ") + "\""
  }

  /** The `--nodes` value: one node per core, exactly `n` nodes per node. */
  function NodesValue(perCore: bool, n: int): string {
    if perCore then "1-1" else IntToString(n) + "-" + IntToString(n)
  }

  /** The seven tokens every interactive command starts with: job name, partition, variables with DISPLAY. */
  function BaseTokens(req: InteractiveRequest): (b: seq<string>)
    ensures |b| == 7
  {
    ["sbatch", "--job-name", "aedt", "--partition", req.queue, "--export", req.env + ",DISPLAY=" + req.display]
  }

  /** `--nodes` and `--ntasks` for a count of `n`. */
  function CountTokens(req: InteractiveRequest, n: int, spec: QueueSpec): (c: seq<string>)
    ensures |c| == 4
  {
    ["--nodes", NodesValue(req.perCore, n), "--ntasks", IntToString(TotalCores(req.perCore, n, spec.cores))]
  }

  /** The node list, blanks removed, when the box is ticked and it is not empty. */
  function NodeListTokens(req: InteractiveRequest): seq<string> {
    var nodeList := Remove(req.nodeListText, ' ');
    if req.nodeListChecked && nodeList != [] then ["--nodelist", nodeList] else []
  }

  /** The reservation, when one is asked for. */
  function ReservationTokens(req: InteractiveRequest): seq<string> {
    if req.reservation then ["--reservation", req.reservationId] else []
  }

  function WrapTokens(req: InteractiveRequest, n: int, spec: QueueSpec): seq<string> {
    ["--wrap", WrapValue(req.aedtPath, TotalCores(req.perCore, n, spec.cores))]
  }

  /** The command for a count of `n`, in the order its parts are appended. */
  function CommandFor(req: InteractiveRequest, n: int, spec: QueueSpec): (cmd: seq<string>)
    ensures |cmd| >= 13 && cmd[0] == "sbatch"
  {
    BaseTokens(req) + CountTokens(req, n, spec) + NodeListTokens(req) + ReservationTokens(req) + WrapTokens(req, n, spec)
  }

  /** The `sbatch` arguments of `submit_interactive_job`, in order, or why there are none. */
  function InteractiveCommand(req: InteractiveRequest, spec: QueueSpec): (r: Result<seq<string>, CommandError>)
    ensures r.Failure? <==> CountOf(req.countText).None? || CountOf(req.countText).value < 1
    ensures r.Failure? ==> (r.error == NotAnInteger <==> CountOf(req.countText).None?)
    ensures r.Success? ==> r.value == CommandFor(req, CountOf(req.countText).value, spec)
  {
    match CountOf(req.countText)
    case None => Failure(NotAnInteger)
    case Some(n) => if n < 1 then Failure(NotPositive) else Success(CommandFor(req, n, spec))
  }

  /** `"<lo>-<hi>"` read back as its two counts. */
  function NodeRange(s: string): Option<(int, int)> {
    var parts := Split(s, '-');
    if |parts| == 2 && ParseInt(parts[0]).Some? && ParseInt(parts[1]).Some? then
      Some((ParseInt(parts[0]).value, ParseInt(parts[1]).value))
    else None
  }

  lemma NodeRangeOf(perCore: bool, n: nat)
    ensures NodeRange(NodesValue(perCore, n)) == Some(if perCore then (1, 1) else (n, n))
  {
    var m := if perCore then 1 else n;
    assert NodesValue(perCore, n) == IntToString(m) + "-" + IntToString(m) by {
      if perCore { assert IntToString(1) == "1"; }
    }
    RangeOf(m);
  }

  lemma RangeOf(m: nat)
    ensures NodeRange(IntToString(m) + "-" + IntToString(m)) == Some((m, m))
  {
    var s := IntToString(m);
    assert Split(s + "-" + s, '-') == [s, s] by {
      DigitsHaveNoDash(s);
      SplitPrefix(s, s, '-');
      SplitNoSep(s, '-');
    }
    assert ParseInt(s) == Some(m) by {
      ParseIntToString(m);
    }
  }

  lemma DigitsHaveNoDash(s: string)
    requires AllDigits(s)
    ensures '-' !in s
  {
    assert forall k :: 0 <= k < |s| ==> s[k] != '-';
  }

  /**
    The fixed head of the command: job name, partition, the variable list
    with DISPLAY added, then `--nodes lo-hi` and `--ntasks total`, where one
    node holds all the cores per core, and the node count is exact per node.
  */
  lemma CommandHead(req: InteractiveRequest, spec: QueueSpec, n: nat)
    ensures var cmd := CommandFor(req, n, spec);
            && |cmd| >= 13
            && cmd[0] == "sbatch" && cmd[1] == "--job-name" && cmd[2] == "aedt" && cmd[3] == "--partition"
            && cmd[4] == req.queue && cmd[5] == "--export" && cmd[6] == req.env + ",DISPLAY=" + req.display
            && cmd[7] == "--nodes" && cmd[9] == "--ntasks"
            && NodeRange(cmd[8]) == Some(if req.perCore then (1, 1) else (n, n))
            && ParseInt(cmd[10]) == Some(TotalCores(req.perCore, n, spec.cores))
  {
    HeadOfCommand(req, n, spec);
    ParseIntToString(TotalCores(req.perCore, n, spec.cores));
    NodeRangeOf(req.perCore, n);
  }

  /** The eleven fixed tokens at the head of a command. */
  ghost predicate HeadIs(cmd: seq<string>, req: InteractiveRequest, n: int, spec: QueueSpec) {
    && |cmd| >= 11
    && cmd[0] == "sbatch" && cmd[1] == "--job-name" && cmd[2] == "aedt" && cmd[3] == "--partition"
    && cmd[4] == req.queue && cmd[5] == "--export" && cmd[6] == req.env + ",DISPLAY=" + req.display
    && cmd[7] == "--nodes" && cmd[8] == NodesValue(req.perCore, n)
    && cmd[9] == "--ntasks" && cmd[10] == IntToString(TotalCores(req.perCore, n, spec.cores))
  }

  lemma HeadOfCommand(req: InteractiveRequest, n: int, spec: QueueSpec)
    ensures |CommandFor(req, n, spec)| >= 13 && HeadIs(CommandFor(req, n, spec), req, n, spec)
  {
    var h := BaseTokens(req) + CountTokens(req, n, spec);
    HeadFields(req, n, spec);
    HeadKept(h, NodeListTokens(req), req, n, spec);
    HeadKept(h + NodeListTokens(req), ReservationTokens(req), req, n, spec);
    HeadKept(h + NodeListTokens(req) + ReservationTokens(req), WrapTokens(req, n, spec), req, n, spec);
  }

  lemma HeadFields(req: InteractiveRequest, n: int, spec: QueueSpec)
    ensures HeadIs(BaseTokens(req) + CountTokens(req, n, spec), req, n, spec)
  {
    var b, c := BaseTokens(req), CountTokens(req, n, spec);
    assert forall i :: 0 <= i < 7 ==> (b + c)[i] == b[i];
    assert forall i :: 7 <= i < 11 ==> (b + c)[i] == c[i - 7];
  }

  lemma HeadKept(h: seq<string>, rest: seq<string>, req: InteractiveRequest, n: int, spec: QueueSpec)
    requires HeadIs(h, req, n, spec)
    ensures HeadIs(h + rest, req, n, spec) && |h + rest| == |h| + |rest|
  {
    assert forall i :: 0 <= i < 11 ==> (h + rest)[i] == h[i];
  }

  /** Three items joined: each separator between two neighbours. */
  lemma JoinThree(a: string, b: string, c: string, sep: string)
    ensures Join([a, b, c], sep) == a + sep + (b + sep + c)
  {
    assert Join([c], sep) == c;
    assert [a, b, c][1..] == [b, c];
    assert [b, c][1..] == [c];
  }

  /** The `--wrap` value ends with `num=<total>` and the closing quote. */
  lemma WrapEndsWithTotal(aedtPath: string, total: int)
    ensures EndsWith(WrapValue(aedtPath, total), "num=" + IntToString(total) + "\"")
  {
    WrapShape(PathJoin(aedtPath, "ansysedt"), "num=" + IntToString(total));
  }

  lemma WrapShape(p: string, t: string)
    ensures EndsWith("\"" + Join([p, "-machinelist", t], " ") + "\"", t + "\"")
  {
    JoinThree(p, "-machinelist", t, " ");
    WrapShapeEq(p, t);
  }

  lemma WrapShapeEq(p: string, t: string)
    ensures "\"" + (p + " " + ("-machinelist" + " " + t)) + "\"" == ("\"" + p + " " + "-machinelist" + " ") + (t + "\"")
  {
  }

  /**
    The optional parts: the node list, blanks removed, when the box is
    ticked and the list is not empty, then the reservation when asked for,
    each as a flag and its value right after the fixed head.
  */
  lemma CommandOptions(req: InteractiveRequest, spec: QueueSpec, n: int)
    ensures var cmd := CommandFor(req, n, spec);
            var nodeList := Remove(req.nodeListText, ' ');
            var withList := req.nodeListChecked && nodeList != [];
            var at := if withList then 13 else 11;
            && |cmd| == 13 + (if withList then 2 else 0) + (if req.reservation then 2 else 0)
            && (withList ==> cmd[11] == "--nodelist" && cmd[12] == nodeList)
            && (req.reservation ==> cmd[at] == "--reservation" && cmd[at + 1] == req.reservationId)
  {
    var pre := BaseTokens(req) + CountTokens(req, n, spec);
    OptionsLayout(pre, NodeListTokens(req), Remove(req.nodeListText, ' '), req.nodeListChecked,
                  ReservationTokens(req), req.reservation, req.reservationId, WrapTokens(req, n, spec));
  }

  lemma OptionsLayout(pre: seq<string>, nl: seq<string>, nodeList: string, checked: bool,
                      res: seq<string>, reservation: bool, id: string, w: seq<string>)
    requires |pre| == 11 && |w| == 2
    requires nl == if checked && nodeList != [] then ["--nodelist", nodeList] else []
    requires res == if reservation then ["--reservation", id] else []
    ensures var cmd := pre + nl + res + w;
            var withList := checked && nodeList != [];
            var at := if withList then 13 else 11;
            && |cmd| == 13 + (if withList then 2 else 0) + (if reservation then 2 else 0)
            && (withList ==> cmd[11] == "--nodelist" && cmd[12] == nodeList)
            && (reservation ==> cmd[at] == "--reservation" && cmd[at + 1] == id)
  {
    Layout(pre, nl, res, w);
  }

  /**
    A launch that passes the reservation gate exports the cleaned variable
    list with DISPLAY appended, and names a reservation exactly when one was
    asked for, then always with a non-empty id.
  */
  lemma LaunchedCommand(form: InteractiveRequest, userEnv: string, admin: seq<(string, string)>,
                        checked: bool, idText: string, spec: QueueSpec)
    requires !LaunchAborts(CheckReservation(checked, idText))
    requires InteractiveCommand(LaunchRequest(form, userEnv, admin, CheckReservation(checked, idText)), spec).Success?
    ensures var cmd := InteractiveCommand(LaunchRequest(form, userEnv, admin, CheckReservation(checked, idText)), spec).value;
            var withList := form.nodeListChecked && Remove(form.nodeListText, ' ') != [];
            var at := if withList then 13 else 11;
            && cmd[6] == LaunchEnv(userEnv, admin) + ",DISPLAY=" + form.display
            && (checked ==> |cmd| == at + 4 && cmd[at] == "--reservation" && cmd[at + 1] == idText && idText != [])
            && (!checked ==> |cmd| == at + 2)
  {
    var req := LaunchRequest(form, userEnv, admin, CheckReservation(checked, idText));
    GateTokens(req, spec, CountOf(req.countText).value);
  }

  lemma GateTokens(req: InteractiveRequest, spec: QueueSpec, n: int)
    ensures var cmd := CommandFor(req, n, spec);
            var withList := req.nodeListChecked && Remove(req.nodeListText, ' ') != [];
            var at := if withList then 13 else 11;
            && cmd[6] == req.env + ",DISPLAY=" + req.display
            && (req.reservation ==> |cmd| == at + 4 && cmd[at] == "--reservation" && cmd[at + 1] == req.reservationId)
            && (!req.reservation ==> |cmd| == at + 2)
  {
    HeadOfCommand(req, n, spec);
    CommandOptions(req, spec, n);
  }

  /** The command ends with `--wrap` and a value whose last word is `num=` and the `--ntasks` count. */
  lemma CommandWrap(req: InteractiveRequest, spec: QueueSpec, n: int)
    ensures var cmd := CommandFor(req, n, spec);
            && |cmd| >= 13
            && cmd[|cmd| - 2] == "--wrap"
            && EndsWith(cmd[|cmd| - 1], "num=" + cmd[10] + "\"")
  {
    var total := TotalCores(req.perCore, n, spec.cores);
    var body := BaseTokens(req) + CountTokens(req, n, spec) + NodeListTokens(req) + ReservationTokens(req);
    var w := WrapTokens(req, n, spec);
    HeadOfCommand(req, n, spec);
    LastTwo(body, w);
    WrapEndsWithTotal(req.aedtPath, total);
  }

  lemma LastTwo(body: seq<string>, w: seq<string>)
    requires |w| == 2
    ensures |body + w| >= 2 && (body + w)[|body + w| - 2] == w[0] && (body + w)[|body + w| - 1] == w[1]
  {
  }

  /** Where each part of a command built by appending four parts lands. */
  lemma Layout(pre: seq<string>, nl: seq<string>, res: seq<string>, w: seq<string>)
    ensures var cmd := pre + nl + res + w;
            && |cmd| == |pre| + |nl| + |res| + |w|
            && (forall i :: 0 <= i < |nl| ==> cmd[|pre| + i] == nl[i])
            && (forall i :: 0 <= i < |res| ==> cmd[|pre| + |nl| + i] == res[i])
            && (forall i :: 0 <= i < |w| ==> cmd[|pre| + |nl| + |res| + i] == w[i])
  {
  }

  predicate EndsWith(s: string, suffix: string) {
    |suffix| <= |s| && s[|s| - |suffix|..] == suffix
  }

  // ---------------------------------------------------------------------
  // DISPLAY, node description, combobox

  const NoDisplay := "DISPLAY environment variable is not specified. Contact cluster admin"
  const NoSession := "DISPLAY hasn't session number specified. Contact cluster admin"

  /**
    `check_display_var`: an empty DISPLAY or one without `:` is an error;
    one with nothing before the first `:` gets the host name put there
    (keeping only the part up to the next `:`); any other is kept.
  */
  function CheckDisplay(display: string, hostname: string): (r: Result<string, string>)
    ensures r.Failure? <==> display == [] || ':' !in display
    ensures r.Success? ==> ':' in r.value
    ensures r.Success? && Split(display, ':')[0] != [] ==> r.value == display
  {
    if display == [] then Failure(NoDisplay)
    else if ':' !in display then Failure(NoSession)
    else
      var parts := Split(display, ':');
      if parts[0] == [] then
        var v := hostname + ":" + parts[1];
        assert v[|hostname|] == ':';
        Success(v)
      else Success(display)
  }

  /** A DISPLAY with no host gets this machine's: host, then the display number it had. */
  lemma DisplayHostFilled(display: string, hostname: string)
    requires ':' in display && Split(display, ':')[0] == []
    requires ':' !in hostname
    ensures var r := CheckDisplay(display, hostname).value;
            Split(r, ':')[..2] == [hostname, Split(display, ':')[1]]
  {
    var p1 := Split(display, ':')[1];
    SplitPrefix(hostname, p1, ':');
    SplitNoSep(p1, ':');
  }

  /** A checked DISPLAY passes the check unchanged. */
  lemma CheckDisplayIdempotent(display: string, hostname: string)
    requires ':' in display && ':' !in hostname
    ensures CheckDisplay(CheckDisplay(display, hostname).value, hostname) == CheckDisplay(display, hostname)
  {
    if Split(display, ':')[0] == [] {
      DisplayHostFilled(display, hostname);
      var p1 := Split(display, ':')[1];
      SplitPrefix(hostname, p1, ':');
      SplitNoSep(p1, ':');
    }
  }

  /** `construct_node_specs_str`: `(<cores> Cores, <ram>GB RAM per node)`. */
  function NodeSpecs(spec: QueueSpec): (s: string)
    ensures |s| >= 2 && s[0] == '(' && s[|s| - 1] == ')'
  {
    "(" + IntToString(spec.cores) + " Cores, " + IntToString(spec.ram) + "GB RAM per node)"
  }

  /** The cores and memory read back from the node description's words. */
  lemma NodeSpecsReadBack(spec: QueueSpec)
    ensures var words := Split(NodeSpecs(spec), ' ');
            && |words| >= 3
            && ParseInt(words[0][1..]) == Some(spec.cores)
            && |words[2]| >= 2 && ParseInt(words[2][..|words[2]| - 2]) == Some(spec.ram)
  {
    var c, m := IntToString(spec.cores), IntToString(spec.ram);
    NodeSpecsWords(spec);
    var w0, w2 := "(" + c, m + "GB";
    assert w0[1..] == c;
    assert w2[..|w2| - 2] == m;
    ParseIntToString(spec.cores);
    ParseIntToString(spec.ram);
  }

  lemma NodeSpecsWords(spec: QueueSpec)
    ensures var words := Split(NodeSpecs(spec), ' ');
            && |words| >= 3
            && words[0] == "(" + IntToString(spec.cores)
            && words[2] == IntToString(spec.ram) + "GB"
  {
    var c, m := IntToString(spec.cores), IntToString(spec.ram);
    assert ' ' !in c by { assert forall k :: 0 <= k < |c| ==> !IsSpace(c[k]); }
    assert ' ' !in m by { assert forall k :: 0 <= k < |m| ==> !IsSpace(m[k]); }
    SpecWords(c, m);
  }

  /** The words of the node description around two blank-free counts. */
  lemma SpecWords(c: string, m: string)
    requires ' ' !in c && ' ' !in m
    ensures var words := Split("(" + c + " Cores, " + m + "GB RAM per node)", ' ');
            |words| >= 3 && words[0] == "(" + c && words[2] == m + "GB"
  {
    var w0, w2 := "(" + c, m + "GB";
    var tail := "RAM per node)";
    SpecShape(c, m);
    assert ' ' !in w0 && ' ' !in w2 by {
      assert forall x :: x in w0 ==> x == '(' || x in c;
      assert forall x :: x in w2 ==> x in m || x in "GB";
    }
    ThreeWords(w0, w2, tail);
  }

  lemma SpecShape(c: string, m: string)
    ensures "(" + c + " Cores, " + m + "GB RAM per node)"
            == ("(" + c) + [' '] + ("Cores," + [' '] + ((m + "GB") + [' '] + "RAM per node)"))
  {
  }

  /** Words with no blank inside come back from `split(" ")` in their places. */
  lemma ThreeWords(w0: string, w2: string, tail: string)
    requires ' ' !in w0 && ' ' !in w2
    ensures var words := Split(w0 + [' '] + ("Cores," + [' '] + (w2 + [' '] + tail)), ' ');
            |words| >= 3 && words[0] == w0 && words[2] == w2
  {
    SplitPrefix(w0, "Cores," + [' '] + (w2 + [' '] + tail), ' ');
    SplitPrefix("Cores,", w2 + [' '] + tail, ' ');
    SplitPrefix(w2, tail, ' ');
  }

  /**
    `init_combobox`: the entries are listed in order and the selection is
    the last entry equal to the default, or the first entry when none is.
  */
  method InitCombobox(entries: seq<string>, default: string) returns (items: seq<string>, index: nat)
    ensures items == entries
    ensures default in entries ==> index < |entries| && entries[index] == default && default !in entries[index + 1..]
    ensures default !in entries ==> index == 0
  {
    items := [];
    index := 0;
    var i := 0;
    while i < |entries|
      invariant 0 <= i <= |entries| && items == entries[..i]
      invariant default in entries[..i] ==> index < i && entries[index] == default && default !in entries[index + 1..i]
      invariant default !in entries[..i] ==> index == 0
    {
      assert entries[..i + 1] == entries[..i] + [entries[i]];
      if entries[i] == default {
        index := i;
      }
      items := items + [entries[i]];
      i := i + 1;
    }
    assert entries[..i] == entries;
  }
}
