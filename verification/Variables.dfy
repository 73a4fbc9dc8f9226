/** Variable expansion (stage2/builtins.c, var_sprint): `$(name)` is replaced by the variable's value, again and
    again until nothing changes or ten rounds have been made. The sizes of the buffers are not part of the model. */
module Variables {
  import opened Seqs

  /** A C string. */
  type CString = s: string | '\0' !in s

  /** The variables that have a value. */
  type Vars = map<string, CString>

  /** var_get: the empty name is never a variable. */
  function VarGet(vars: Vars, name: string): Option<CString> {
    if name != "" && name in vars then Some(vars[name]) else None
  }

  /** The first closing parenthesis at or behind `p`, or the end. */
  function CloseAt(s: CString, p: nat): (e: nat)
    requires p <= |s|
    ensures p <= e <= |s| && (e < |s| ==> s[e] == ')') && forall i :: p <= i < e ==> s[i] != ')'
    decreases |s| - p
  {
    if p == |s| || s[p] == ')' then p else CloseAt(s, p + 1)
  }

  predicate OpensAt(s: CString, p: nat) {
    p + 1 < |s| && s[p] == '$' && s[p + 1] == '('
  }

  /** A reference starts at `p`. */
  predicate RefersAt(s: CString, p: nat) {
    OpensAt(s, p) && CloseAt(s, p + 2) < |s|
  }

  /** What one round makes of the text from `p` on. A reference to an unknown variable disappears, and the character
      behind it is copied without being looked at. */
  function OnceFrom(vars: Vars, s: CString, p: nat): CString
    requires p <= |s|
    decreases |s| - p
  {
    if p == |s| then ""
    else if RefersAt(s, p) then
      var e := CloseAt(s, p + 2);
      var val := VarGet(vars, s[p + 2..e]);
      if val.Some? then val.value + OnceFrom(vars, s, e + 1)
      else if e + 1 == |s| then ""
      else [s[e + 1]] + OnceFrom(vars, s, e + 2)
    else [s[p]] + OnceFrom(vars, s, p + 1)
  }

  function Once(vars: Vars, s: CString): CString {
    OnceFrom(vars, s, 0)
  }

  /** At most `n` rounds. */
  function Rounds(vars: Vars, s: CString, n: nat): CString
    requires n > 0
    decreases n
  {
    var t := Once(vars, s);
    if n == 1 || t == s then t else Rounds(vars, t, n - 1)
  }

  function Sprint(vars: Vars, s: CString): CString {
    Rounds(vars, s, 10)
  }

  method FindClose(str: CString, p: nat) returns (end: nat)
    requires p <= |str|
    ensures end == CloseAt(str, p)
  {
    end := p;
    while end < |str| && str[end] != ')'
      invariant p <= end <= |str| && CloseAt(str, end) == CloseAt(str, p)
    {
      end := end + 1;
    }
  }

  /** var_sprint_once. A terminating NUL copied behind an unknown variable ends the result. */
  method VarSprintOnce(vars: Vars, str: CString) returns (buf: CString)
    ensures buf == Once(vars, str)
  {
    hide OnceFrom;
    buf := "";
    var p := 0;
    assert "" + OnceFrom(vars, str, 0) == Once(vars, str);
    while p < |str|
      invariant p <= |str| && buf + OnceFrom(vars, str, p) == Once(vars, str)
      decreases |str| - p
    {
      var piece, q := CopyOne(vars, str, p);
      Assoc(buf, piece, OnceFrom(vars, str, q));
      buf, p := buf + piece, q;
    }
    OnceUnfold(vars, str, p);
    assert buf + "" == buf;
  }

  /** One pass of the loop: a variable's value or a single character is copied. */
  method CopyOne(vars: Vars, str: CString, p: nat) returns (piece: CString, q: nat)
    requires p < |str|
    ensures p < q <= |str| && OnceFrom(vars, str, p) == piece + OnceFrom(vars, str, q)
  {
    hide OnceFrom;
    hide CloseAt;
    OnceUnfold(vars, str, p);
    q := p;
    if OpensAt(str, p) {
      var end := FindClose(str, p + 2);
      if end < |str| {
        var val := VarGet(vars, str[p + 2..end]);
        q := end + 1;
        if val.Some? {
          return val.value, q;
        }
      }
    }
    if q == |str| {
      OnceUnfold(vars, str, q);
      return "", q;
    }
    return [str[q]], q + 1;
  }

  lemma OnceUnfold(vars: Vars, s: CString, p: nat)
    requires p <= |s|
    ensures OnceFrom(vars, s, p) ==
      if p == |s| then ""
      else if RefersAt(s, p) then
        var e := CloseAt(s, p + 2);
        var val := VarGet(vars, s[p + 2..e]);
        if val.Some? then val.value + OnceFrom(vars, s, e + 1)
        else if e + 1 == |s| then ""
        else [s[e + 1]] + OnceFrom(vars, s, e + 2)
      else [s[p]] + OnceFrom(vars, s, p + 1)
  {
  }

  /** var_sprint */
  method VarSprint(vars: Vars, str: CString) returns (buf: CString)
    ensures buf == Sprint(vars, str)
  {
    var i := 10;
    buf := str;
    while true
      invariant 0 < i <= 10 && Rounds(vars, buf, i) == Sprint(vars, str)
      decreases i
    {
      var buffer := buf;
      buf := VarSprintOnce(vars, buffer);
      i := i - 1;
      if i == 0 || buf == buffer {
        break;
      }
    }
  }

  // ---------------------------------------------------------------- texts that stay as they are

  /** The text refers to a variable. */
  ghost predicate HasReference(s: CString) {
    exists p, e :: 0 <= p && p + 2 <= e < |s| && s[p] == '$' && s[p + 1] == '(' && s[e] == ')'
  }

  lemma ReferenceStarts(s: CString)
    ensures HasReference(s) <==> exists p :: 0 <= p && RefersAt(s, p)
  {
    if HasReference(s) {
      var p, e :| 0 <= p && p + 2 <= e < |s| && s[p] == '$' && s[p + 1] == '(' && s[e] == ')';
      assert RefersAt(s, p);
    }
    if p :| 0 <= p && RefersAt(s, p) {
      var e := CloseAt(s, p + 2);
      assert s[p] == '$' && s[p + 1] == '(' && s[e] == ')';
    }
  }

  lemma {:induction false} PlainOnce(vars: Vars, s: CString, p: nat)
    requires p <= |s| && forall q :: p <= q ==> !RefersAt(s, q)
    ensures OnceFrom(vars, s, p) == s[p..]
    decreases |s| - p
  {
    if p < |s| {
      PlainOnce(vars, s, p + 1);
      assert s[p..] == [s[p]] + s[p + 1..];
    }
  }

  /** Without variables a round makes nothing longer. */
  lemma {:induction false} EmptyShrinks(s: CString, p: nat)
    requires p <= |s|
    ensures |OnceFrom(map[], s, p)| <= |s| - p
    decreases |s| - p
  {
    hide OnceFrom;
    hide CloseAt;
    OnceUnfold(map[], s, p);
    if p < |s| {
      if !RefersAt(s, p) {
        EmptyShrinks(s, p + 1);
      } else if CloseAt(s, p + 2) + 1 < |s| {
        EmptyShrinks(s, CloseAt(s, p + 2) + 2);
      }
    }
  }

  /** And a reference makes the text shorter. */
  lemma {:induction false} ReferenceShrinks(s: CString, p: nat, q: nat)
    requires p <= q && RefersAt(s, q)
    ensures |OnceFrom(map[], s, p)| < |s| - p
    decreases |s| - p
  {
    hide OnceFrom;
    hide CloseAt;
    OnceUnfold(map[], s, p);
    if !RefersAt(s, p) {
      ReferenceShrinks(s, p + 1, q);
    } else if CloseAt(s, p + 2) + 1 < |s| {
      EmptyShrinks(s, CloseAt(s, p + 2) + 2);
    }
  }

  lemma {:induction false} EmptyRounds(s: CString, n: nat)
    requires n > 0
    ensures |Rounds(map[], s, n)| <= |Once(map[], s)| <= |s|
    decreases n
  {
    EmptyShrinks(s, 0);
    var t := Once(map[], s);
    if n > 1 && t != s {
      EmptyRounds(t, n - 1);
    }
  }

  /** Without variables, a text with a reference does not stay as it is. */
  lemma EmptyChanges(s: CString)
    requires HasReference(s)
    ensures Sprint(map[], s) != s
  {
    ReferenceStarts(s);
    hide OnceFrom;
    hide Rounds;
    var q :| 0 <= q && RefersAt(s, q);
    ReferenceShrinks(s, 0, q);
    EmptyRounds(s, 10);
  }

  /** A text is its own expansion whatever the variables, exactly when it has no reference. */
  lemma UnchangedIff(s: CString)
    ensures (forall vars: Vars :: Sprint(vars, s) == s) <==> !HasReference(s)
  {
    ReferenceStarts(s);
    if !HasReference(s) {
      forall vars: Vars
        ensures Sprint(vars, s) == s
      {
        PlainOnce(vars, s, 0);
      }
    } else {
      EmptyChanges(s);
    }
  }

  /** The expansion is final, unless all ten rounds were needed. */
  lemma {:induction false} RoundsSettle(vars: Vars, s: CString, n: nat) returns (chain: seq<CString>)
    requires n > 0
    ensures 2 <= |chain| <= n + 1 && chain[0] == s && chain[|chain| - 1] == Rounds(vars, s, n)
    ensures forall i :: 0 <= i < |chain| - 1 ==> chain[i + 1] == Once(vars, chain[i])
    ensures Once(vars, Rounds(vars, s, n)) == Rounds(vars, s, n) || |chain| == n + 1
    decreases n
  {
    hide Once;
    var t := Once(vars, s);
    if n == 1 || t == s {
      chain := [s, t];
    } else {
      var rest := RoundsSettle(vars, t, n - 1);
      chain := [s] + rest;
    }
  }

  // ---------------------------------------------------------------- how a text is expanded

  /** No `$` stands before a `(`. */
  ghost predicate NoOpening(s: string) {
    forall i :: 0 <= i < |s| - 1 ==> !(s[i] == '$' && s[i + 1] == '(')
  }

  lemma {:induction false} CopyStart(vars: Vars, s: CString, p: nat, n: nat)
    requires p <= n <= |s| && NoOpening(s[..n]) && (n < |s| ==> s[n] != '(')
    ensures OnceFrom(vars, s, p) == s[p..n] + OnceFrom(vars, s, n)
    decreases n - p
  {
    hide OnceFrom;
    hide CloseAt;
    if p < n {
      NotOpening(s, p, n);
      OnceUnfold(vars, s, p);
      CopyStart(vars, s, p + 1, n);
      assert s[p..n] == [s[p]] + s[p + 1..n];
      Assoc([s[p]], s[p + 1..n], OnceFrom(vars, s, n));
    }
  }

  lemma NotOpening(s: CString, p: nat, n: nat)
    requires p < n <= |s| && NoOpening(s[..n]) && (n < |s| ==> s[n] != '(')
    ensures !OpensAt(s, p)
  {
    assert s[..n][p] == s[p];
    if p + 1 < n {
      assert s[..n][p + 1] == s[p + 1];
    }
  }

  /** What comes before does not matter. */
  lemma {:induction false} CloseShift(pre: string, t: CString, p: nat)
    requires '\0' !in pre && p <= |t|
    ensures CloseAt(pre + t, |pre| + p) == |pre| + CloseAt(t, p)
    decreases |t| - p
  {
    if p < |t| && t[p] != ')' {
      CloseShift(pre, t, p + 1);
    }
  }

  lemma RefersShift(pre: string, t: CString, p: nat)
    requires '\0' !in pre && p <= |t|
    ensures var s: CString, n: nat := pre + t, |pre|;
            && (OpensAt(s, n + p) <==> OpensAt(t, p)) && (RefersAt(s, n + p) <==> RefersAt(t, p))
            && (RefersAt(t, p) ==>
                  var e := CloseAt(t, p + 2); CloseAt(s, n + p + 2) == n + e && s[n + p + 2..n + e] == t[p + 2..e])
  {
    var s: CString := pre + t;
    if p + 2 <= |t| {
      CloseShift(pre, t, p + 2);
    }
    hide CloseAt;
    if RefersAt(t, p) {
      var n, e := |pre|, CloseAt(t, p + 2);
      assert s[n + p + 2..n + e] == t[p + 2..e];
    }
  }

  lemma {:induction false} OnceShift(vars: Vars, pre: string, t: CString, p: nat)
    requires '\0' !in pre && p <= |t|
    ensures OnceFrom(vars, pre + t, |pre| + p) == OnceFrom(vars, t, p)
    decreases |t| - p
  {
    hide OnceFrom;
    hide CloseAt;
    hide RefersAt;
    hide VarGet;
    if p == |t| {
      OnceUnfold(vars, pre + t, |pre| + p);
      OnceUnfold(vars, t, p);
    } else if RefersAt(t, p) {
      CloseInside(t, p);
      var e := CloseAt(t, p + 2);
      OnceShift(vars, pre, t, e + 1);
      if e + 1 < |t| {
        OnceShift(vars, pre, t, e + 2);
      }
      RefersShift(pre, t, p);
      ReferenceShift(vars, pre + t, t, |pre|, p, e);
    } else {
      OnceShift(vars, pre, t, p + 1);
      RefersShift(pre, t, p);
      OnceUnfold(vars, pre + t, |pre| + p);
      OnceUnfold(vars, t, p);
    }
  }

  /** The same reference in two texts, with the same behind it. */
  lemma ReferenceShift(vars: Vars, s: CString, t: CString, n: nat, p: nat, e: nat)
    requires p + 2 <= e < |t| && |s| == n + |t|
    requires RefersAt(t, p) && e == CloseAt(t, p + 2) && RefersAt(s, n + p) && n + e == CloseAt(s, n + p + 2)
    requires s[n + p + 2..n + e] == t[p + 2..e] && OnceFrom(vars, s, n + e + 1) == OnceFrom(vars, t, e + 1)
    requires e + 1 < |t| ==> s[n + e + 1] == t[e + 1] && OnceFrom(vars, s, n + e + 2) == OnceFrom(vars, t, e + 2)
    ensures OnceFrom(vars, s, n + p) == OnceFrom(vars, t, p)
  {
    hide OnceFrom;
    hide CloseAt;
    hide RefersAt;
    OnceUnfold(vars, s, n + p);
    OnceUnfold(vars, t, p);
  }

  lemma CloseInside(t: CString, p: nat)
    requires RefersAt(t, p)
    ensures p + 2 <= CloseAt(t, p + 2) < |t|
  {
  }

  /** The text `pre$(name)post`. */
  function Referring(pre: CString, name: CString, post: CString): CString {
    pre + ("$(" + name + ")" + post)
  }

  lemma {:induction false} NameEnds(name: CString, post: CString, p: nat)
    requires ')' !in name && p <= |name|
    ensures CloseAt("$(" + name + ")" + post, 2 + p) == 2 + |name|
    decreases |name| - p
  {
    var t := "$(" + name + ")" + post;
    if p < |name| {
      assert t[2 + p] == name[p];
      NameEnds(name, post, p + 1);
    } else {
      assert t[2 + p] == ')';
    }
  }

  /** A variable that has a value is replaced by it, and what stands before and behind is expanded separately. */
  lemma KnownReplaced(vars: Vars, pre: CString, name: CString, post: CString)
    requires NoOpening(pre) && ')' !in name && name != "" && name in vars
    ensures Once(vars, Referring(pre, name, post)) == pre + (vars[name] + Once(vars, post))
  {
    hide OnceFrom;
    UpToReference(vars, pre, name, post);
    AtReference(vars, name, post);
    OnceShift(vars, "$(" + name + ")", post, 0);
  }

  /** A variable that has none disappears, and the character behind it is copied as it is. */
  lemma UnknownDropped(vars: Vars, pre: CString, name: CString, post: CString)
    requires NoOpening(pre) && ')' !in name && (name == "" || name !in vars)
    ensures Once(vars, Referring(pre, name, post))
         == pre + if post == "" then "" else [post[0]] + Once(vars, post[1..])
  {
    hide OnceFrom;
    UpToReference(vars, pre, name, post);
    AtReference(vars, name, post);
    if post != "" {
      var head := "$(" + name + ")";
      OnceShift(vars, head + [post[0]], post[1..], 0);
      assert (head + [post[0]]) + post[1..] == head + post;
    }
  }

  /** Up to the reference the text is copied. */
  lemma UpToReference(vars: Vars, pre: CString, name: CString, post: CString)
    requires NoOpening(pre)
    ensures Once(vars, Referring(pre, name, post)) == pre + OnceFrom(vars, "$(" + name + ")" + post, 0)
  {
    hide OnceFrom;
    var t: CString := "$(" + name + ")" + post;
    var s := Referring(pre, name, post);
    assert s[..|pre|] == pre && s[|pre|] == '$';
    CopyStart(vars, s, 0, |pre|);
    OnceShift(vars, pre, t, 0);
  }

  /** Then the value counts. */
  lemma AtReference(vars: Vars, name: CString, post: CString)
    requires ')' !in name
    ensures var t := "$(" + name + ")" + post;
            OnceFrom(vars, t, 0) ==
              if name != "" && name in vars then vars[name] + OnceFrom(vars, t, 3 + |name|)
              else if post == "" then ""
              else [post[0]] + OnceFrom(vars, t, 4 + |name|)
  {
    hide OnceFrom;
    hide CloseAt;
    NameEnds(name, post, 0);
    ReferenceText(name, post);
    ReferenceFirst(vars, "$(" + name + ")" + post, name);
  }

  lemma ReferenceText(name: CString, post: CString)
    ensures var t := "$(" + name + ")" + post;
      && |t| == 3 + |name| + |post| && t[0] == '$' && t[1] == '(' && t[2..2 + |name|] == name
      && (post != "" ==> t[3 + |name|] == post[0])
  {
  }

  lemma ReferenceFirst(vars: Vars, t: CString, name: CString)
    requires 3 + |name| <= |t| && t[0] == '$' && t[1] == '(' && t[2..2 + |name|] == name
    requires CloseAt(t, 2) == 2 + |name|
    ensures OnceFrom(vars, t, 0) ==
      if name != "" && name in vars then vars[name] + OnceFrom(vars, t, 3 + |name|)
      else if |t| == 3 + |name| then ""
      else [t[3 + |name|]] + OnceFrom(vars, t, 4 + |name|)
  {
    hide OnceFrom;
    hide CloseAt;
    OnceUnfold(vars, t, 0);
  }

  /** A text with no reference in it stays as it is. */
  lemma PlainStays(vars: Vars, s: CString)
    requires !HasReference(s)
    ensures Once(vars, s) == s
  {
    ReferenceStarts(s);
    PlainOnce(vars, s, 0);
  }

  /** `n` rounds, one after the other. */
  function Times(vars: Vars, s: CString, n: nat): CString
    decreases n
  {
    if n == 0 then s else Times(vars, Once(vars, s), n - 1)
  }

  lemma {:induction false} StaysForGood(vars: Vars, s: CString, n: nat)
    requires Once(vars, s) == s
    ensures Times(vars, s, n) == s
    decreases n
  {
    if n > 0 {
      StaysForGood(vars, s, n - 1);
    }
  }

  lemma {:induction false} RoundsAreTimes(vars: Vars, s: CString, n: nat)
    requires n > 0
    ensures Rounds(vars, s, n) == Times(vars, s, n)
    decreases n
  {
    hide Once;
    var t := Once(vars, s);
    if t == s {
      StaysForGood(vars, s, n);
    } else if n > 1 {
      RoundsAreTimes(vars, t, n - 1);
    } else {
      assert Times(vars, t, 0) == t;
    }
  }

  function Reference(name: CString): CString {
    "$(" + name + ")"
  }

  /** `names` is a chain of variables, each referring to the next one and the last with the value `end`. */
  ghost predicate Chain(vars: Vars, names: seq<CString>, end: CString) {
    names != [] && forall i :: 0 <= i < |names| ==> Link(vars, names, end, i)
  }

  ghost predicate Link(vars: Vars, names: seq<CString>, end: CString, i: nat)
    requires i < |names|
  {
    && names[i] != "" && ')' !in names[i] && names[i] in vars
    && vars[names[i]] == if i + 1 < |names| then Reference(names[i + 1]) else end
  }

  lemma ChainTail(vars: Vars, names: seq<CString>, end: CString)
    requires Chain(vars, names, end) && |names| > 1
    ensures Chain(vars, names[1..], end)
  {
    forall i | 0 <= i < |names[1..]|
      ensures Link(vars, names[1..], end, i)
    {
      assert Link(vars, names, end, i + 1);
    }
  }

  lemma ChainStep(vars: Vars, names: seq<CString>, end: CString)
    requires names != [] && Link(vars, names, end, 0)
    ensures Once(vars, Reference(names[0])) == vars[names[0]]
  {
    KnownReplaced(vars, "", names[0], "");
    assert Referring("", names[0], "") == Reference(names[0]);
    assert Once(vars, "") == "";
    hide Once;
    assert "" + vars[names[0]] + "" == vars[names[0]];
  }

  lemma {:induction false} ChainTimes(vars: Vars, names: seq<CString>, end: CString, k: nat)
    requires Chain(vars, names, end) && !HasReference(end)
    ensures Times(vars, Reference(names[0]), k) == if k < |names| then Reference(names[k]) else end
    decreases k
  {
    hide Once;
    hide Reference;
    hide HasReference;
    if k > 0 {
      assert Link(vars, names, end, 0);
      ChainStep(vars, names, end);
      if |names| == 1 {
        PlainStays(vars, end);
        StaysForGood(vars, end, k - 1);
        assert Times(vars, Reference(names[0]), k) == Times(vars, end, k - 1);
      } else {
        ChainTail(vars, names, end);
        hide Chain;
        ChainTimes(vars, names[1..], end, k - 1);
      }
    }
  }

  /** A chain of at most ten variables is expanded to its end, and a longer one is left at its eleventh. */
  lemma ChainExpands(vars: Vars, names: seq<CString>, end: CString)
    requires Chain(vars, names, end) && !HasReference(end)
    ensures Sprint(vars, Reference(names[0])) == if |names| <= 10 then end else Reference(names[10])
  {
    RoundsAreTimes(vars, Reference(names[0]), 10);
    hide Rounds;
    hide Times;
    ChainTimes(vars, names, end, 10);
  }

  // ---------------------------------------------------------------- beginnings that stay as they are

  /** The text begins with `w`. */
  ghost predicate StartsWith(s: string, w: string) {
    |w| <= |s| && s[..|w|] == w
  }

  lemma {:induction false} PlainStart(vars: Vars, s: CString, p: nat, n: nat)
    requires p <= n <= |s| && '$' !in s[..n]
    ensures OnceFrom(vars, s, p) == s[p..n] + OnceFrom(vars, s, n)
    decreases n - p
  {
    if p < n {
      assert s[p] == s[..n][p];
      PlainStart(vars, s, p + 1, n);
      assert s[p..n] == [s[p]] + s[p + 1..n];
    }
  }

  lemma {:induction false} StartStays(vars: Vars, s: CString, w: string, n: nat)
    requires StartsWith(s, w) && '$' !in w && n > 0
    ensures StartsWith(Rounds(vars, s, n), w)
    decreases n
  {
    PlainStart(vars, s, 0, |w|);
    var t := Once(vars, s);
    assert StartsWith(t, w);
    if n > 1 && t != s {
      StartStays(vars, t, w, n - 1);
    }
  }

  /** A text that begins with a reference expands to one that begins with the variable's value. */
  lemma ValueFirst(s: CString, value: CString)
    requires RefersAt(s, 0) && s[2..CloseAt(s, 2)] != "" && '$' !in value
    ensures StartsWith(Sprint(map[s[2..CloseAt(s, 2)] := value], s), value)
  {
    hide OnceFrom;
    hide Rounds;
    var vars: Vars := map[s[2..CloseAt(s, 2)] := value];
    OnceUnfold(vars, s, 0);
    var t := Once(vars, s);
    assert StartsWith(t, value);
    hide CloseAt;
    RoundsUnfold(vars, s, 10);
    if t != s {
      StartStays(vars, t, value, 9);
    }
  }

  lemma RoundsUnfold(vars: Vars, s: CString, n: nat)
    requires n > 1
    ensures var t := Once(vars, s); Rounds(vars, s, n) == if t == s then t else Rounds(vars, t, n - 1)
  {
  }
}
