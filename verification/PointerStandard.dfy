/** The pointers RFC 6901 defines, and exactly which of the pointers the resolver accepts are among them. */
module PointerStandard {
  import opened Wrappers
  import opened Text
  import opened JsonPointer

  // ---------------------------------------------------------------------
  // The standard

  /** A reference token read in one pass: each `~` is followed by `0` or `1` (section 3). */
  function Decoded(token: string): Option<string>
  {
    if token == "" then Some("")
    else if token[0] != '~' then Before(token[0], Decoded(token[1..]))
    else if |token| > 1 && token[1] == '0' then Before('~', Decoded(token[2..]))
    else if |token| > 1 && token[1] == '1' then Before('/', Decoded(token[2..]))
    else None
  }

  function Before(c: char, rest: Option<string>): Option<string>
  {
    match rest
    case None => None
    case Some(s) => Some([c] + s)
  }

  /** `array-index`: zero, or ASCII digits of which the first is not zero (section 4). */
  predicate ArrayIndex(token: string)
  {
    token == "0" || (token != "" && token[0] != '0' && forall i :: 0 <= i < |token| ==> PlainDigit(token[i]))
  }

  function RfcStep(v: Json, raw: string): Option<Json>
  {
    match Decoded(raw)
    case None => None
    case Some(token) =>
      match v
      case List(items) => if ArrayIndex(token) && Value(token) < |items| then Some(items[Value(token)]) else None
      case Dict(entries) => Find(entries, token)
      case _ => None
  }

  function RfcFollow(v: Json, tokens: seq<string>): Option<Json>
    decreases |tokens|
  {
    if tokens == [] then Some(v)
    else
      match RfcStep(v, tokens[0])
      case None => None
      case Some(child) => RfcFollow(child, tokens[1..])
  }

  /** A pointer is empty, or a sequence of tokens each after a slash. */
  function RfcResolve(document: Json, pointer: string): Option<Json>
  {
    if pointer == "" then Some(document)
    else if pointer[0] == '/' then RfcFollow(document, Split(pointer[1..], '/'))
    else None
  }

  // ---------------------------------------------------------------------
  // What a caller can check

  predicate Escaped(s: string)
  {
    s != "" && (s[0] == '0' || s[0] == '1')
  }

  /** Every `~` is followed by `0` or `1`. */
  predicate WellEscaped(s: string)
  {
    forall i :: 0 <= i < |s| && s[i] == '~' ==> Escaped(s[i + 1..])
  }

  /** No leading zero, and nothing beyond ASCII. */
  predicate PlainIndex(token: string)
  {
    (|token| > 1 ==> token[0] != '0') && forall c :: c in token ==> c as int < 128
  }

  /** Every token that meets a list on the way is a plain index. */
  predicate PlainSteps(v: Json, tokens: seq<string>)
    decreases |tokens|
  {
    tokens == []
    || ((v.List? ==> PlainIndex(tokens[0]))
        && (Descend(v, tokens[0]).Some? ==> PlainSteps(Descend(v, tokens[0]).value, tokens[1..])))
  }

  predicate Conforms(document: Json, pointer: string)
  {
    pointer == ""
    || (pointer[0] == '/' && WellEscaped(pointer) && PlainSteps(document, Split(pointer[1..], '/')))
  }

  // ---------------------------------------------------------------------
  // They agree exactly there

  lemma EscapedCons(c: char, s: string)
    ensures WellEscaped([c] + s) <==> (c == '~' ==> Escaped(s)) && WellEscaped(s)
  {
    var all := [c] + s;
    assert all[0] == c && all[1..] == s;
    assert forall i :: 0 <= i < |s| ==> all[i + 1] == s[i] && all[i + 1..][1..] == s[i + 1..];
    if WellEscaped(all) {
      forall i | 0 <= i < |s| && s[i] == '~'
        ensures Escaped(s[i + 1..])
      {
        assert all[i + 1] == '~' && all[i + 2..] == s[i + 1..];
      }
    }
    if WellEscaped(s) && (c == '~' ==> Escaped(s)) {
      forall i | 0 <= i < |all| && all[i] == '~'
        ensures Escaped(all[i + 1..])
      {
        if i > 0 { assert s[i - 1] == '~' && s[i - 1 + 1..] == all[i + 1..]; }
      }
    }
  }

  lemma {:induction false} DecodedExactly(token: string)
    requires '/' !in token
    ensures Decoded(token).Some? <==> WellEscaped(token)
    ensures Decoded(token).Some? ==> Encoded(Decoded(token).value) == token
  {
    if token != "" {
      var rest := token[1..];
      assert token == [token[0]] + rest;
      EscapedCons(token[0], rest);
      if token[0] != '~' {
        DecodedExactly(rest);
      } else if Escaped(rest) {
        DecodedExactly(token[2..]);
        assert rest == [rest[0]] + token[2..];
        EscapedCons(rest[0], token[2..]);
      }
    }
  }

  /** Reading a well-escaped token in one pass or by two replacements is the same. */
  lemma DecodingsAgree(token: string)
    requires '/' !in token && WellEscaped(token)
    ensures Decoded(token) == Some(Unescape(token))
  {
    DecodedExactly(token);
    var key := Decoded(token).value;
    EscapeTildes(key);
    EscapeSlashes(key);
    UnescapeEscape(key);
  }

  lemma {:induction false} DigitsStay(key: string)
    requires AllDigits(key)
    ensures Encoded(key) == key
  {
    if key != "" {
      assert DigitValue('~').None? && DigitValue('/').None?;
      DigitsStay(key[1..]);
    }
  }

  lemma IndexExactly(token: string)
    requires IsDigits(token)
    ensures ArrayIndex(token) <==> PlainIndex(token)
  {
    if PlainIndex(token) {
      forall i | 0 <= i < |token|
        ensures PlainDigit(token[i])
      {
        assert token[i] in token;
      }
    }
  }

  lemma StepExactly(v: Json, raw: string)
    requires '/' !in raw
    ensures RfcStep(v, raw) == if WellEscaped(raw) && (v.List? ==> PlainIndex(raw)) then Descend(v, raw) else None
  {
    DecodedExactly(raw);
    if WellEscaped(raw) {
      DecodingsAgree(raw);
      var key := Unescape(raw);
      if IsDigits(key) {
        DigitsStay(key);
        IndexExactly(key);
      }
    }
  }

  predicate AllEscaped(tokens: seq<string>)
  {
    forall i :: 0 <= i < |tokens| ==> WellEscaped(tokens[i])
  }

  lemma {:induction false} FollowExactly(v: Json, tokens: seq<string>)
    requires forall t :: t in tokens ==> '/' !in t
    ensures RfcFollow(v, tokens) == if AllEscaped(tokens) && PlainSteps(v, tokens) then Follow(v, tokens) else None
    decreases |tokens|
  {
    if tokens != [] {
      StepExactly(v, tokens[0]);
      if Descend(v, tokens[0]).Some? {
        FollowExactly(Descend(v, tokens[0]).value, tokens[1..]);
      }
    }
  }

  lemma {:induction false} EscapedPieces(s: string)
    ensures WellEscaped(s) <==> AllEscaped(Split(s, '/'))
  {
    if s != "" {
      var rest := s[1..];
      var first := Split(rest, '/')[0];
      EscapedPieces(rest);
      assert s == [s[0]] + rest;
      EscapedCons(s[0], rest);
      EscapedCons(s[0], first);
      EscapedHead(s);
    }
  }

  lemma EscapedHead(s: string)
    requires s != ""
    ensures var parts, pieces := Split(s, '/'), Split(s[1..], '/');
            && (Escaped(pieces[0]) <==> Escaped(s[1..]))
            && (AllEscaped(parts) <==>
                  AllEscaped(pieces[1..]) && WellEscaped(if s[0] == '/' then pieces[0] else [s[0]] + pieces[0]))
  {
    var parts, pieces := Split(s, '/'), Split(s[1..], '/');
    if s[0] == '/' {
      HeadEscaped("", pieces);
      HeadEscaped(pieces[0], pieces[1..]);
      assert pieces == [pieces[0]] + pieces[1..];
    } else {
      HeadEscaped([s[0]] + pieces[0], pieces[1..]);
    }
  }

  lemma HeadEscaped(first: string, others: seq<string>)
    ensures AllEscaped([first] + others) <==> WellEscaped(first) && AllEscaped(others)
  {
    var all := [first] + others;
    if AllEscaped(all) {
      assert all[0] == first;
      assert forall i :: 0 <= i < |others| ==> others[i] == all[i + 1];
    }
  }

  /** The standard resolves what the code resolves, cut down to the conforming pointers. */
  lemma RfcExactly(document: Json, pointer: string)
    ensures RfcResolve(document, pointer) == if Conforms(document, pointer) then Resolve(document, pointer) else None
    ensures Resolve(document, pointer).Some? ==>
              (RfcResolve(document, pointer) == Resolve(document, pointer) <==> Conforms(document, pointer))
  {
    if pointer != "" && pointer[0] == '/' {
      var rest := pointer[1..];
      assert pointer == ['/'] + rest;
      EscapedCons('/', rest);
      EscapedPieces(rest);
      FollowExactly(document, Split(rest, '/'));
    }
  }

  // ---------------------------------------------------------------------
  // Where they part

  lemma ResolveOne(document: Json, token: string)
    requires '/' !in token
    ensures Resolve(document, "/" + token) == Descend(document, token)
    ensures token != "" ==> Resolve(document, token) == Descend(document, token)
  {
    SplitPiece(token, '/');
    FollowOne(document, token);
    assert ("/" + token)[1..] == token && ("/" + token)[0] == '/';
  }

  lemma FollowOne(document: Json, token: string)
    ensures Follow(document, [token]) == Descend(document, token)
  {
    assert [token][1..] == [];
  }

  /** A key reached without its slash, and under a `~` that escapes nothing. */
  lemma LaxKeysResolve(v: Json, key: string)
    requires '/' !in key && '~' !in key && key != ""
    ensures Resolve(Dict([Entry(key, v)]), key) == Some(v) && RfcResolve(Dict([Entry(key, v)]), key) == None
    ensures Resolve(Dict([Entry("~2", v)]), "/~2") == Some(v) && RfcResolve(Dict([Entry("~2", v)]), "/~2") == None
  {
    NothingToReplace(key, "~1", "/");
    NothingToReplace(key, "~0", "~");
    ResolveOne(Dict([Entry(key, v)]), key);
    assert Replace("~2", "~1", "/") == "~2" && Replace("~2", "~0", "~") == "~2" by {
      ReplaceOne('~', "2", "~1", "/");
      ReplaceOne('~', "2", "~0", "~");
    }
    ResolveOne(Dict([Entry("~2", v)]), "~2");
    RfcExactly(Dict([Entry("~2", v)]), "/~2");
    assert "/~2"[1] == '~' && !WellEscaped("/~2");
  }

  /** An item reached under a leading zero, and under a digit of another script. */
  lemma LaxIndicesResolve(v: Json)
    ensures Resolve(List([v]), "/00") == Some(v) && RfcResolve(List([v]), "/00") == None
    ensures Resolve(List([v]), "/\U{0660}") == Some(v) && RfcResolve(List([v]), "/\U{0660}") == None
  {
    assert Value("0") == 0 && Value("00") == 0 by { assert "0"[..0] == "" && "00"[..1] == "0"; }
    ZeroIndex(v, "00");
    ArabicZero();
    ZeroIndex(v, "\U{0660}");
  }

  lemma ArabicZero()
    ensures var zero := "\U{0660}"; IsDigits(zero) && Value(zero) == 0 && !PlainIndex(zero)
  {
    var zero := "\U{0660}";
    FirstZero();
    assert DigitValue(zero[0]) == Some(0);
    assert zero[0] in zero && zero[..0] == "";
  }

  lemma FirstZero()
    ensures DigitIn(0x660, ZEROS) == Some(0)
  {
    assert ZEROS[0] == 0x660;
  }

  lemma ZeroIndex(v: Json, token: string)
    requires IsDigits(token) && Value(token) == 0 && !PlainIndex(token)
    ensures Resolve(List([v]), "/" + token) == Some(v) && RfcResolve(List([v]), "/" + token) == None
  {
    DigitsAreClean(token);
    ResolveOne(List([v]), token);
    SplitPiece(token, '/');
    assert ("/" + token)[1..] == token;
    RfcExactly(List([v]), "/" + token);
  }
}
