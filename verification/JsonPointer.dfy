/** JSON Pointer resolution (RFC 6901, sections 3 and 4), and the hints that enumerate it backwards. */
module JsonPointer {
  import opened Wrappers
  import opened Text

  datatype Entry = Entry(key: string, value: Json)

  datatype Json =
    | Null
    | Bool(flag: bool)
    | Number(number: int)
    | String(text: string)
    | List(items: seq<Json>)
    | Dict(entries: seq<Entry>)

  predicate Scalar(v: Json)
  {
    !v.List? && !v.Dict?
  }

  /** The keys of every object are distinct. */
  predicate WellFormed(v: Json)
  {
    match v
    case List(items) => forall i :: 0 <= i < |items| ==> WellFormed(items[i])
    case Dict(entries) =>
      && (forall i, j :: 0 <= i < j < |entries| ==> entries[i].key != entries[j].key)
      && (forall i :: 0 <= i < |entries| ==> WellFormed(entries[i].value))
    case _ => true
  }

  // ---------------------------------------------------------------------
  // Tokens

  function Escape(key: string): string
  {
    Replace(Replace(key, "~", "~0"), "/", "~1")
  }

  function Unescape(token: string): string
  {
    Replace(Replace(token, "~1", "/"), "~0", "~")
  }

  /** Escaping one character at a time. */
  function Encoded(key: string): string
  {
    if key == "" then ""
    else (if key[0] == '~' then "~0" else if key[0] == '/' then "~1" else [key[0]]) + Encoded(key[1..])
  }

  function TildesEncoded(key: string): string
  {
    if key == "" then "" else (if key[0] == '~' then "~0" else [key[0]]) + TildesEncoded(key[1..])
  }

  lemma {:induction false} EscapeTildes(key: string)
    ensures Replace(key, "~", "~0") == TildesEncoded(key)
  {
    if key != "" {
      EscapeTildes(key[1..]);
      assert key[..1] == [key[0]];
    }
  }

  lemma {:induction false} EscapeSlashes(key: string)
    ensures Replace(TildesEncoded(key), "/", "~1") == Encoded(key)
  {
    if key != "" {
      var rest := TildesEncoded(key[1..]);
      EscapeSlashes(key[1..]);
      if key[0] == '~' {
        assert TildesEncoded(key) == ['~'] + (['0'] + rest);
        ReplaceTwo('~', '0', rest, "/", "~1");
      } else if key[0] == '/' {
        assert TildesEncoded(key) == "/" + rest;
        ReplaceHit("/", rest, "~1");
      } else {
        ReplaceOne(key[0], rest, "/", "~1");
      }
    }
  }

  lemma {:induction false} UnescapeSlashes(key: string)
    ensures Replace(Encoded(key), "~1", "/") == TildesEncoded(key)
  {
    if key != "" {
      var rest := Encoded(key[1..]);
      UnescapeSlashes(key[1..]);
      if key[0] == '~' {
        assert Encoded(key) == ['~'] + (['0'] + rest);
        ReplaceTwo('~', '0', rest, "~1", "/");
      } else if key[0] == '/' {
        assert Encoded(key) == "~1" + rest;
        ReplaceHit("~1", rest, "/");
      } else {
        ReplaceOne(key[0], rest, "~1", "/");
      }
    }
  }

  lemma {:induction false} UnescapeTildes(key: string)
    ensures Replace(TildesEncoded(key), "~0", "~") == key
  {
    if key != "" {
      var rest := TildesEncoded(key[1..]);
      UnescapeTildes(key[1..]);
      if key[0] == '~' {
        assert TildesEncoded(key) == "~0" + rest;
        ReplaceHit("~0", rest, "~");
      } else {
        ReplaceOne(key[0], rest, "~0", "~");
      }
      assert key == [key[0]] + key[1..];
    }
  }

  /** A character that cannot start an occurrence is copied. */
  lemma ReplaceOne(c: char, rest: string, old_: string, by_: string)
    requires |old_| > 0 && (c != old_[0] || (|old_| > 1 && (rest == "" || rest[0] != old_[1])))
    ensures Replace([c] + rest, old_, by_) == [c] + Replace(rest, old_, by_)
  {
    var s := [c] + rest;
    assert s[1..] == rest;
    if |s| >= |old_| {
      assert s[..|old_|][0] == c;
      if |old_| > 1 { assert s[..|old_|][1] == rest[0]; }
    }
  }

  lemma ReplaceTwo(c: char, d: char, rest: string, old_: string, by_: string)
    requires |old_| > 0 && d != old_[0] && (c != old_[0] || (|old_| > 1 && d != old_[1]))
    ensures Replace([c] + ([d] + rest), old_, by_) == [c, d] + Replace(rest, old_, by_)
  {
    ReplaceOne(d, rest, old_, by_);
    ReplaceOne(c, [d] + rest, old_, by_);
  }

  lemma ReplaceHit(old_: string, rest: string, by_: string)
    requires |old_| > 0
    ensures Replace(old_ + rest, old_, by_) == by_ + Replace(rest, old_, by_)
  {
    assert (old_ + rest)[..|old_|] == old_ && (old_ + rest)[|old_|..] == rest;
  }

  /** Every key survives escaping and unescaping. */
  lemma UnescapeEscape(key: string)
    ensures Unescape(Escape(key)) == key
    ensures '/' !in Escape(key)
  {
    EscapeTildes(key);
    EscapeSlashes(key);
    UnescapeSlashes(key);
    UnescapeTildes(key);
    EncodedHasNoSlash(key);
  }

  lemma {:induction false} EncodedHasNoSlash(key: string)
    ensures '/' !in Encoded(key)
  {
    if key != "" {
      EncodedHasNoSlash(key[1..]);
    }
  }

  // ---------------------------------------------------------------------
  // Indices

  /** Where each run of ten decimal digits outside ASCII starts in Unicode 14. */
  const ZEROS: seq<int> :=
    [0x660, 0x6f0, 0x7c0, 0x966, 0x9e6, 0xa66, 0xae6, 0xb66, 0xbe6, 0xc66, 0xce6, 0xd66, 0xde6]
    + [0xe50, 0xed0, 0xf20, 0x1040, 0x1090, 0x17e0, 0x1810, 0x1946, 0x19d0, 0x1a80, 0x1a90, 0x1b50, 0x1bb0]
    + [0x1c40, 0x1c50, 0xa620, 0xa8d0, 0xa900, 0xa9d0, 0xa9f0, 0xaa50, 0xabf0, 0xff10, 0x104a0, 0x10d30, 0x11066]
    + [0x110f0, 0x11136, 0x111d0, 0x112f0, 0x11450, 0x114d0, 0x11650, 0x116c0, 0x11730, 0x118e0, 0x11950, 0x11c50, 0x11d50]
    + [0x11da0, 0x16a60, 0x16ac0, 0x16b50, 0x1d7ce, 0x1d7d8, 0x1d7e2, 0x1d7ec, 0x1d7f6, 0x1e140, 0x1e2f0, 0x1e950, 0x1fbf0]

  function DigitIn(n: int, zeros: seq<int>): (d: Option<nat>)
    ensures d.Some? ==> d.value < 10
  {
    if zeros == [] then None
    else if zeros[0] <= n < zeros[0] + 10 then Some(n - zeros[0])
    else DigitIn(n, zeros[1..])
  }

  /** What `int` reads a character as; a digit that is not decimal, such as a superscript, makes it fail. */
  function DigitValue(c: char): (d: Option<nat>)
    ensures d.Some? ==> d.value < 10
  {
    if PlainDigit(c) then Some(c as int - '0' as int)
    else if c as int < 128 then None
    else DigitIn(c as int, ZEROS)
  }

  predicate PlainDigit(c: char)
  {
    '0' <= c <= '9'
  }

  predicate AllDigits(token: string)
  {
    forall i :: 0 <= i < |token| ==> DigitValue(token[i]).Some?
  }

  predicate IsDigits(token: string)
  {
    token != "" && AllDigits(token)
  }

  function Value(token: string): nat
    requires AllDigits(token)
  {
    if token == "" then 0
    else 10 * Value(token[..|token| - 1]) + DigitValue(token[|token| - 1]).value
  }

  function Decimal(n: nat): (token: string)
    ensures IsDigits(token)
  {
    var last := ['0' + (n % 10) as char];
    if n < 10 then last else Decimal(n / 10) + last
  }

  lemma {:induction false} ValueOfDecimal(n: nat)
    ensures Value(Decimal(n)) == n
  {
    var token := Decimal(n);
    assert DigitValue(token[|token| - 1]) == Some(n % 10);
    if n >= 10 {
      ValueOfDecimal(n / 10);
      assert token[..|token| - 1] == Decimal(n / 10);
    } else {
      assert token[..|token| - 1] == "";
    }
  }

  lemma {:induction false} DigitsAreClean(token: string)
    requires AllDigits(token)
    ensures Unescape(token) == token && '/' !in token
  {
    assert DigitValue('~').None? && DigitValue('/').None?;
    NothingToReplace(token, "~1", "/");
    NothingToReplace(token, "~0", "~");
  }

  lemma {:induction false} NothingToReplace(s: string, old_: string, by_: string)
    requires |old_| > 0 && old_[0] !in s
    ensures Replace(s, old_, by_) == s
  {
    if |s| >= |old_| {
      assert s[..|old_|][0] == s[0];
      NothingToReplace(s[1..], old_, by_);
      assert s == [s[0]] + s[1..];
    }
  }

  // ---------------------------------------------------------------------
  // Resolution

  function Find(entries: seq<Entry>, key: string): Option<Json>
  {
    if entries == [] then None
    else if entries[0].key == key then Some(entries[0].value)
    else Find(entries[1..], key)
  }

  /** One step into a value: an index into a list, a key into an object, nothing into a scalar. */
  function Descend(v: Json, raw: string): Option<Json>
  {
    var token := Unescape(raw);
    match v
    case List(items) => if IsDigits(token) && Value(token) < |items| then Some(items[Value(token)]) else None
    case Dict(entries) => Find(entries, token)
    case _ => None
  }

  function Follow(v: Json, tokens: seq<string>): Option<Json>
    decreases |tokens|
  {
    if tokens == [] then Some(v)
    else
      match Descend(v, tokens[0])
      case None => None
      case Some(child) => Follow(child, tokens[1..])
  }

  function Tokens(pointer: string): (tokens: seq<string>)
    ensures |tokens| > 0
  {
    Split(if pointer != "" && pointer[0] == '/' then pointer[1..] else pointer, '/')
  }

  function Resolve(document: Json, pointer: string): Option<Json>
  {
    if pointer == "" then Some(document) else Follow(document, Tokens(pointer))
  }

  method ResolvePointer(document: Json, pointer: string) returns (found: Option<Json>)
    ensures found == Resolve(document, pointer)
  {
    if pointer == "" { return Some(document); }
    var tokens := Tokens(pointer);
    var current, i := document, 0;
    while i < |tokens|
      invariant i <= |tokens|
      invariant Follow(document, tokens) == Follow(current, tokens[i..])
    {
      var next := Descend(current, tokens[i]);
      if next.None? { return None; }
      current, i := next.value, i + 1;
    }
    found := Some(current);
  }

  // ---------------------------------------------------------------------
  // Leaves

  datatype Child = Child(step: string, value: Json)

  /** The members of a value in order, each under its escaped token. */
  function Children(v: Json): (children: seq<Child>)
    ensures forall i :: 0 <= i < |children| ==> children[i].value < v
  {
    match v
    case List(items) => seq(|items|, i requires 0 <= i < |items| => Child(Decimal(i), items[i]))
    case Dict(entries) => seq(|entries|, i requires 0 <= i < |entries| => Child(Escape(entries[i].key), entries[i].value))
    case _ => []
  }

  /** Token paths to every scalar under `v`, in document order. */
  function Leaves(v: Json): seq<seq<string>>
    decreases v, 1, 0
  {
    if Scalar(v) then [[]] else LeavesFrom(v, 0)
  }

  function LeavesFrom(v: Json, i: nat): seq<seq<string>>
    requires i <= |Children(v)|
    decreases v, 0, |Children(v)| - i
  {
    if i == |Children(v)| then []
    else Under(Children(v)[i].step, Leaves(Children(v)[i].value)) + LeavesFrom(v, i + 1)
  }

  function Under(step: string, paths: seq<seq<string>>): (below: seq<seq<string>>)
    ensures |below| == |paths| && forall i :: 0 <= i < |paths| ==> below[i] == [step] + paths[i]
  {
    seq(|paths|, i requires 0 <= i < |paths| => [step] + paths[i])
  }

  lemma {:induction false} FindIsUnique(entries: seq<Entry>, i: nat)
    requires i < |entries| && forall j, k :: 0 <= j < k < |entries| ==> entries[j].key != entries[k].key
    ensures Find(entries, entries[i].key) == Some(entries[i].value)
  {
    if i > 0 {
      assert entries[0].key != entries[i].key;
      FindIsUnique(entries[1..], i - 1);
    }
  }

  lemma {:induction false} FindIsEntry(entries: seq<Entry>, key: string) returns (i: nat)
    requires Find(entries, key).Some?
    ensures i < |entries| && entries[i].key == key && Find(entries, key) == Some(entries[i].value)
  {
    if entries[0].key == key {
      i := 0;
    } else {
      var j := FindIsEntry(entries[1..], key);
      i := j + 1;
    }
  }

  /** A member's token steps to exactly that member. */
  lemma StepDescends(v: Json, i: nat)
    requires WellFormed(v) && i < |Children(v)|
    ensures Descend(v, Children(v)[i].step) == Some(Children(v)[i].value)
    ensures '/' !in Children(v)[i].step && WellFormed(Children(v)[i].value)
  {
    match v
    case List(items) =>
      ValueOfDecimal(i);
      DigitsAreClean(Decimal(i));
    case Dict(entries) =>
      UnescapeEscape(entries[i].key);
      FindIsUnique(entries, i);
  }

  /** Different members have different tokens. */
  lemma StepsDiffer(v: Json, i: nat, j: nat)
    requires WellFormed(v) && i < j < |Children(v)|
    ensures Children(v)[i].step != Children(v)[j].step
  {
    match v
    case List(items) =>
      ValueOfDecimal(i);
      ValueOfDecimal(j);
    case Dict(entries) =>
      UnescapeEscape(entries[i].key);
      UnescapeEscape(entries[j].key);
  }

  /** The path names a scalar of `v` through member tokens only. */
  predicate NamesLeaf(v: Json, path: seq<string>)
    decreases |path|
  {
    if path == [] then Scalar(v)
    else exists i :: 0 <= i < |Children(v)| && Children(v)[i].step == path[0] && NamesLeaf(Children(v)[i].value, path[1..])
  }

  /** The path goes through a member at `i` or later. */
  predicate NamesLeafFrom(v: Json, i: nat, path: seq<string>)
  {
    path != [] && exists k :: i <= k < |Children(v)| && Children(v)[k].step == path[0] && NamesLeaf(Children(v)[k].value, path[1..])
  }

  lemma {:induction false} LeavesAreNamed(v: Json, path: seq<string>)
    ensures path in Leaves(v) <==> NamesLeaf(v, path)
    decreases v, 1, 0
  {
    if Scalar(v) {
      assert Leaves(v) == [[]] && Children(v) == [];
    } else {
      LeavesFromAreNamed(v, 0, path);
    }
  }

  lemma {:induction false} LeavesFromAreNamed(v: Json, i: nat, path: seq<string>)
    requires i <= |Children(v)|
    ensures path in LeavesFrom(v, i) <==> NamesLeafFrom(v, i, path)
    decreases v, 0, |Children(v)| - i
  {
    if i < |Children(v)| {
      LeavesFromAreNamed(v, i + 1, path);
      var c := Children(v)[i];
      var here := Under(c.step, Leaves(c.value));
      UnderMember(c.step, Leaves(c.value), path);
      if path != [] {
        LeavesAreNamed(c.value, path[1..]);
      }
      assert LeavesFrom(v, i) == here + LeavesFrom(v, i + 1);
      assert path in LeavesFrom(v, i) <==> path in here || path in LeavesFrom(v, i + 1);
      NamedHereOrLater(v, i, path);
    }
  }

  lemma NamedHereOrLater(v: Json, i: nat, path: seq<string>)
    requires i < |Children(v)|
    ensures NamesLeafFrom(v, i, path) <==>
              || NamesLeafFrom(v, i + 1, path)
              || (path != [] && Children(v)[i].step == path[0] && NamesLeaf(Children(v)[i].value, path[1..]))
  {
  }

  lemma UnderMember(step: string, paths: seq<seq<string>>, path: seq<string>)
    ensures path in Under(step, paths) <==> path != [] && path[0] == step && path[1..] in paths
  {
    var below := Under(step, paths);
    if path in below {
      var i :| 0 <= i < |below| && below[i] == path;
      assert path[1..] == paths[i];
    }
    if path != [] && path[0] == step && path[1..] in paths {
      var i :| 0 <= i < |paths| && paths[i] == path[1..];
      assert below[i] == path;
    }
  }

  /** Following a leaf's path arrives at a scalar. */
  lemma {:induction false} LeafResolves(v: Json, path: seq<string>)
    requires WellFormed(v) && NamesLeaf(v, path)
    ensures Follow(v, path).Some? && Scalar(Follow(v, path).value)
    ensures forall t :: t in path ==> '/' !in t
    decreases |path|
  {
    if path != [] {
      var i :| 0 <= i < |Children(v)| && Children(v)[i].step == path[0] && NamesLeaf(Children(v)[i].value, path[1..]);
      StepDescends(v, i);
      LeafResolves(Children(v)[i].value, path[1..]);
    }
  }

  /** The canonical spelling of a path that resolves: plain decimal indices and fully escaped keys. */
  function Canonical(v: Json, tokens: seq<string>): seq<string>
    requires Follow(v, tokens).Some?
    decreases |tokens|
  {
    if tokens == [] then []
    else
      var token := Unescape(tokens[0]);
      [if v.List? then Decimal(Value(token)) else Escape(token)] + Canonical(Descend(v, tokens[0]).value, tokens[1..])
  }

  /** Whatever resolves to a scalar is, spelled canonically, among the leaves. */
  lemma {:induction false} ResolvedIsLeaf(v: Json, tokens: seq<string>)
    requires Follow(v, tokens).Some? && Scalar(Follow(v, tokens).value)
    ensures NamesLeaf(v, Canonical(v, tokens))
    decreases |tokens|
  {
    if tokens != [] {
      var child := Descend(v, tokens[0]).value;
      ResolvedIsLeaf(child, tokens[1..]);
      var path := Canonical(v, tokens);
      assert path[1..] == Canonical(child, tokens[1..]);
      var token := Unescape(tokens[0]);
      if v.List? {
        var c := Children(v)[Value(token)];
        assert c.step == path[0] && c.value == child;
      } else {
        var i := FindIsEntry(v.entries, token);
        assert Children(v)[i].step == path[0] && Children(v)[i].value == child;
      }
    }
  }

  ghost predicate AllDifferent(paths: seq<seq<string>>)
  {
    forall i, j :: 0 <= i < j < |paths| ==> paths[i] != paths[j]
  }

  lemma {:induction false} LeavesDiffer(v: Json)
    requires WellFormed(v)
    ensures AllDifferent(Leaves(v))
    decreases v, 1, 0
  {
    if !Scalar(v) {
      LeavesFromDiffer(v, 0);
    }
  }

  lemma {:induction false} LeavesFromDiffer(v: Json, i: nat)
    requires WellFormed(v) && i <= |Children(v)|
    ensures AllDifferent(LeavesFrom(v, i))
    decreases v, 0, |Children(v)| - i
  {
    if i < |Children(v)| {
      var c := Children(v)[i];
      StepDescends(v, i);
      LeavesDiffer(c.value);
      LeavesFromDiffer(v, i + 1);
      var here, later := Under(c.step, Leaves(c.value)), LeavesFrom(v, i + 1);
      forall a, b | 0 <= a < |here| && 0 <= b < |later|
        ensures here[a] != later[b]
      {
        assert later[b] in later;
        LeavesFromAreNamed(v, i + 1, later[b]);
        var k :| i + 1 <= k < |Children(v)| && Children(v)[k].step == later[b][0];
        StepsDiffer(v, i, k);
        assert here[a][0] == c.step;
      }
      UnderDiffer(c.step, Leaves(c.value));
      AppendDiffer(here, later);
    }
  }

  lemma UnderDiffer(step: string, paths: seq<seq<string>>)
    requires AllDifferent(paths)
    ensures AllDifferent(Under(step, paths))
  {
    forall i, j | 0 <= i < j < |paths|
      ensures Under(step, paths)[i] != Under(step, paths)[j]
    {
      assert ([step] + paths[i])[1..] == paths[i] && ([step] + paths[j])[1..] == paths[j];
    }
  }

  lemma AppendDiffer(a: seq<seq<string>>, b: seq<seq<string>>)
    requires AllDifferent(a) && AllDifferent(b) && forall i, j :: 0 <= i < |a| && 0 <= j < |b| ==> a[i] != b[j]
    ensures AllDifferent(a + b)
  {
  }
}
