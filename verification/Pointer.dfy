/**
  JSON Pointer evaluation, sections 3 and 4 of RFC 6901, as the plan checker
  writes it: split at '/', undo '~' escapes, walk.  Array indices go through
  an integer parser that also accepts a leading '+'.
 */
module Pointer {
  import opened Common

  datatype Json =
    | Null
    | Bool(b: bool)
    | Number(n: int)
    | Str(s: string)
    | Arr(items: seq<Json>)
    | Obj(fields: map<string, Json>)

  // ----- tokens -----

  function Unsplit(tokens: seq<string>): string {
    if tokens == [] then [] else Unsplit(Init(tokens)) + "/" + Last(tokens)
  }

  lemma {:induction false} SplitUnsplit(tokens: seq<string>)
    requires tokens != [] && forall t | t in tokens :: '/' !in t
    ensures "/" <= Unsplit(tokens) && Split(Unsplit(tokens)[1..]) == tokens
  {
    var front, last := Init(tokens), Last(tokens);
    var s := Unsplit(tokens);
    if front == [] {
      assert s[1..] == last && tokens == [last];
      SplitPlain(last);
    } else {
      SplitUnsplit(front);
      assert s[1..] == Unsplit(front)[1..] + "/" + last;
      SplitAppend(Unsplit(front)[1..], last);
    }
  }

  lemma {:induction false} SplitPlain(t: string)
    requires '/' !in t
    ensures Split(t) == [t]
  {
    if t != [] {
      SplitPlain(Init(t));
      assert Last(t) in t && t == Init(t) + [Last(t)];
      assert Init([Init(t)]) == [];
    }
  }

  lemma {:induction false} SplitAppend(s: string, t: string)
    requires '/' !in t
    ensures Split(s + "/" + t) == Split(s) + [t]
  {
    var all := s + "/" + t;
    if t == [] {
      assert Init(all) == s;
    } else {
      assert Init(all) == s + "/" + Init(t);
      SplitAppend(s, Init(t));
      assert Last(all) == Last(t) && Last(t) in t && t == Init(t) + [Last(t)];
      assert Init(Split(s) + [Init(t)]) == Split(s);
    }
  }

  lemma {:induction false} UnsplitSplit(s: string)
    ensures Unsplit(Split(s)) == "/" + s
  {
    if s != [] {
      var front := Split(Init(s));
      UnsplitSplit(Init(s));
      assert s == Init(s) + [Last(s)];
      if Last(s) == '/' {
        assert Init(Split(s)) == front;
      } else {
        assert Init(Split(s)) == Init(front);
        assert Unsplit(Init(front)) + "/" + (Last(front) + [Last(s)]) == Unsplit(front) + [Last(s)];
      }
    }
  }

  // ----- escapes -----

  /** Section 3: '~' is written "~0" and '/' is written "~1". */
  function Escape(key: string): string {
    if key == [] then []
    else (if key[0] == '~' then "~0" else if key[0] == '/' then "~1" else [key[0]]) + Escape(key[1..])
  }

  function Unescape(token: string): Option<string> {
    if token == [] then Some([])
    else if token[0] == '~' then
      if |token| == 1 || !(token[1] == '0' || token[1] == '1') then None
      else
        match Unescape(token[2..])
        case None => None
        case Some(rest) => Some([if token[1] == '0' then '~' else '/'] + rest)
    else
      match Unescape(token[1..])
      case None => None
      case Some(rest) => Some([token[0]] + rest)
  }

  lemma {:induction false} UnescapeEscape(key: string)
    ensures Unescape(Escape(key)) == Some(key) && '/' !in Escape(key)
  {
    if key != [] {
      UnescapeEscape(key[1..]);
      assert key == [key[0]] + key[1..];
      var rest := Escape(key[1..]);
      if key[0] == '~' {
        assert Escape(key) == "~0" + rest && Escape(key)[2..] == rest;
      } else if key[0] == '/' {
        assert Escape(key) == "~1" + rest && Escape(key)[2..] == rest;
      } else {
        assert Escape(key) == [key[0]] + rest && Escape(key)[1..] == rest;
      }
    }
  }

  /** Escaping is the only way to write a key: a readable token is the escape of what it denotes. */
  lemma {:induction false} EscapeUnescape(token: string)
    requires '/' !in token && Unescape(token).Some?
    ensures Escape(Unescape(token).value) == token
  {
    if token != [] {
      var key := Unescape(token).value;
      if token[0] == '~' {
        EscapeUnescape(token[2..]);
        assert key[1..] == Unescape(token[2..]).value;
        assert token == token[..2] + token[2..];
        assert token[..2] == if token[1] == '0' then "~0" else "~1";
      } else {
        EscapeUnescape(token[1..]);
        assert key[1..] == Unescape(token[1..]).value;
        assert token[0] in token;
      }
    }
  }

  /** A '~' that is not followed by '0' or '1' at its turn makes the token unreadable. */
  lemma {:induction false} MalformedEscape(readable: string, rest: string)
    requires Unescape(readable).Some?
    requires rest != [] && rest[0] == '~' && (|rest| == 1 || (rest[1] != '0' && rest[1] != '1'))
    ensures Unescape(readable + rest).None?
  {
    if readable == [] {
      assert readable + rest == rest;
    } else {
      var k := if readable[0] == '~' then 2 else 1;
      MalformedEscape(readable[k..], rest);
      assert (readable + rest)[k..] == readable[k..] + rest;
    }
  }

  // ----- indices -----

  predicate IsDigit(c: char) { '0' <= c <= '9' }

  function Digit(c: char): nat
    requires IsDigit(c)
  {
    c as int - '0' as int
  }

  predicate AllDigits(s: string) {
    forall i | 0 <= i < |s| :: IsDigit(s[i])
  }

  function DigitsValue(s: string): nat
    requires AllDigits(s)
  {
    if s == [] then 0 else 10 * DigitsValue(Init(s)) + Digit(Last(s))
  }

  /** `str::parse::<usize>`: an optional '+', then one or more digits.  Overflow never matters: no array is that long. */
  function ParseIndex(key: string): Option<nat> {
    var digits := if key != [] && key[0] == '+' then key[1..] else key;
    if digits != [] && AllDigits(digits) then Some(DigitsValue(digits)) else None
  }

  function Decimal(n: nat): (s: string)
    ensures s != [] && AllDigits(s)
  {
    var d := ['0' + (n % 10) as char];
    if n < 10 then d else Decimal(n / 10) + d
  }

  /** Canonical decimals read back as themselves and never start with a spare zero. */
  lemma {:induction false} DecimalReads(n: nat)
    ensures DigitsValue(Decimal(n)) == n
    ensures Decimal(n)[0] == '0' ==> n == 0
    ensures n == 0 ==> Decimal(n) == "0"
  {
    if n < 10 {
      var s := Decimal(n);
      assert s == [s[0]] && Init(s) == [] && DigitsValue(Init(s)) == 0;
    } else {
      DecimalReads(n / 10);
      var s := Decimal(n);
      assert Init(s) == Decimal(n / 10);
    }
  }

  /** Digits without a spare zero are the canonical decimal of their value. */
  lemma {:induction false} ReadsDecimal(s: string)
    requires s != [] && AllDigits(s) && (|s| > 1 ==> s[0] != '0')
    ensures Decimal(DigitsValue(s)) == s
    ensures DigitsValue(s) == 0 ==> s == "0"
  {
    var n := DigitsValue(s);
    if |s| == 1 {
      assert Init(s) == [] && DigitsValue(Init(s)) == 0;
    } else {
      ReadsDecimal(Init(s));
      assert Init(s)[0] == s[0];
      assert n / 10 == DigitsValue(Init(s)) && n % 10 == Digit(Last(s));
      assert s == Init(s) + [Last(s)];
    }
  }

  // ----- evaluation -----

  function Child(v: Json, key: string): Option<Json> {
    match v
    case Obj(fields) => if key in fields then Some(fields[key]) else None
    case Arr(items) =>
      if key == [] || (|key| > 1 && key[0] == '0') then None
      else
        var i := ParseIndex(key);
        if i.Some? && i.value < |items| then Some(items[i.value]) else None
    case _ => None
  }

  function StepInto(v: Option<Json>, token: string): Option<Json> {
    if v.None? then None
    else
      match Unescape(token)
      case None => None
      case Some(key) => Child(v.value, key)
  }

  /** The cursor after the given tokens. */
  function Follow(v: Json, tokens: seq<string>): Option<Json> {
    if tokens == [] then Some(v) else StepInto(Follow(v, Init(tokens)), Last(tokens))
  }

  function Evaluate(v: Json, path: string): Option<Json> {
    if path == [] then Some(v)
    else if path[0] != '/' then None
    else Follow(v, Split(path[1..]))
  }

  function Prepend(key: string, rest: Option<string>): Option<string> {
    if rest.Some? then Some(key + rest.value) else None
  }

  /** The inner loop: a key grown character by character. */
  method DecodeToken(token: string) returns (r: Option<string>)
    ensures r == Unescape(token)
  {
    var key, i := "", 0;
    assert token[0..] == token && (Unescape(token).Some? ==> "" + Unescape(token).value == Unescape(token).value);
    while i < |token|
      invariant i <= |token| && Unescape(token) == Prepend(key, Unescape(token[i..]))
    {
      ghost var rest := token[i..];
      var c := token[i];
      i := i + 1;
      if c == '~' {
        if i == |token| || (token[i] != '0' && token[i] != '1') {
          assert Unescape(rest).None?;
          return None;
        }
        var plain := if token[i] == '0' then '~' else '/';
        i := i + 1;
        assert rest[2..] == token[i..];
        PrependMore(key, plain, Unescape(token[i..]));
        key := key + [plain];
      } else {
        assert rest[1..] == token[i..];
        PrependMore(key, c, Unescape(token[i..]));
        key := key + [c];
      }
    }
    assert key + [] == key;
    return Some(key);
  }

  lemma PrependMore(key: string, c: char, rest: Option<string>)
    ensures Prepend(key, Prepend([c], rest)) == Prepend(key + [c], rest)
  {
    if rest.Some? {
      assert key + ([c] + rest.value) == (key + [c]) + rest.value;
    }
  }

  /** The outer loop: a cursor moved token by token. */
  method EvaluatePointer(value: Json, path: string) returns (r: Option<Json>)
    ensures r == Evaluate(value, path)
  {
    if path == [] {
      return Some(value);
    }
    if path[0] != '/' {
      return None;
    }
    var tokens := Split(path[1..]);
    var current := value;
    for t := 0 to |tokens|
      invariant Follow(value, tokens[..t]) == Some(current)
    {
      assert Init(tokens[..t + 1]) == tokens[..t];
      var key := DecodeToken(tokens[t]);
      var child := if key.None? then None else Child(current, key.value);
      if child.None? {
        FollowFails(value, tokens, t + 1);
        return None;
      }
      current := child.value;
    }
    assert tokens[..|tokens|] == tokens;
    return Some(current);
  }

  lemma {:induction false} FollowFails(v: Json, tokens: seq<string>, t: nat)
    requires t <= |tokens| && Follow(v, tokens[..t]).None?
    ensures Follow(v, tokens).None?
  {
    if t == |tokens| {
      assert tokens[..t] == tokens;
    } else {
      assert Init(tokens)[..t] == tokens[..t];
      FollowFails(v, Init(tokens), t);
    }
  }

  /** One unreadable token anywhere makes the whole pointer evaluate to nothing. */
  lemma UnreadableTokenFails(v: Json, path: string, t: nat)
    requires path != [] && path[0] == '/' && t < |Split(path[1..])| && Unescape(Split(path[1..])[t]).None?
    ensures Evaluate(v, path).None?
  {
    var tokens := Split(path[1..]);
    assert Last(tokens[..t + 1]) == tokens[t];
    FollowFails(v, tokens, t + 1);
  }

  // ----- paths -----

  datatype PathStep = Key(key: string) | Index(index: nat)

  function SubStep(v: Json, step: PathStep): Option<Json> {
    match (v, step)
    case (Obj(fields), Key(k)) => if k in fields then Some(fields[k]) else None
    case (Arr(items), Index(i)) => if i < |items| then Some(items[i]) else None
    case _ => None
  }

  function Sub(v: Json, path: seq<PathStep>): Option<Json> {
    if path == [] then Some(v)
    else
      match Sub(v, Init(path))
      case None => None
      case Some(parent) => SubStep(parent, Last(path))
  }

  function PrintStep(step: PathStep): string {
    match step
    case Key(k) => Escape(k)
    case Index(i) => Decimal(i)
  }

  function PrintSteps(path: seq<PathStep>): seq<string> {
    seq(|path|, i requires 0 <= i < |path| => PrintStep(path[i]))
  }

  function Print(path: seq<PathStep>): string {
    Unsplit(PrintSteps(path))
  }

  lemma {:induction false} UnescapePlain(token: string)
    requires '~' !in token
    ensures Unescape(token) == Some(token)
  {
    if token != [] {
      assert token == [token[0]] + token[1..];
      UnescapePlain(token[1..]);
    }
  }

  lemma DecimalToken(n: nat)
    ensures Unescape(Decimal(n)) == Some(Decimal(n)) && '/' !in Decimal(n)
    ensures ParseIndex(Decimal(n)) == Some(n)
    ensures |Decimal(n)| > 1 ==> Decimal(n)[0] != '0'
  {
    DecimalReads(n);
    UnescapePlain(Decimal(n));
  }

  lemma PrintedTokens(path: seq<PathStep>)
    ensures forall t | t in PrintSteps(path) :: '/' !in t
  {
    forall i | 0 <= i < |path| ensures '/' !in PrintStep(path[i]) {
      match path[i]
      case Key(k) => UnescapeEscape(k);
      case Index(n) => DecimalToken(n);
    }
  }

  lemma StepPrinted(parent: Json, step: PathStep)
    requires SubStep(parent, step).Some?
    ensures StepInto(Some(parent), PrintStep(step)) == SubStep(parent, step)
  {
    match step
    case Key(k) => UnescapeEscape(k);
    case Index(n) => DecimalToken(n);
  }

  lemma {:induction false} FollowPrinted(v: Json, path: seq<PathStep>)
    requires Sub(v, path).Some?
    ensures Follow(v, PrintSteps(path)) == Sub(v, path)
  {
    if path != [] {
      FollowPrinted(v, Init(path));
      assert Init(PrintSteps(path)) == PrintSteps(Init(path));
      StepPrinted(Sub(v, Init(path)).value, Last(path));
    }
  }

  /** The printed pointer of any existing path evaluates to exactly the value at that path. */
  lemma PointerReadsPrinted(v: Json, path: seq<PathStep>)
    requires Sub(v, path).Some?
    ensures Evaluate(v, Print(path)) == Sub(v, path)
  {
    if path != [] {
      PrintedTokens(path);
      SplitUnsplit(PrintSteps(path));
      FollowPrinted(v, path);
    }
  }

  function StepOf(parent: Json, token: string): PathStep
    requires StepInto(Some(parent), token).Some?
  {
    var key := Unescape(token).value;
    if parent.Obj? then Key(key) else Index(ParseIndex(key).value)
  }

  /** The path a successful evaluation took. */
  function PathOf(v: Json, tokens: seq<string>): seq<PathStep>
    requires Follow(v, tokens).Some?
  {
    if tokens == [] then []
    else PathOf(v, Init(tokens)) + [StepOf(Follow(v, Init(tokens)).value, Last(tokens))]
  }

  /** An array index written with the '+' that the index parser tolerates. */
  predicate PlusIndex(step: PathStep, token: string) {
    step.Index? && token != [] && token[0] == '+'
  }

  /** The token is the step's printed form, unless it is a tolerated '+' index. */
  ghost predicate Prints(step: PathStep, token: string) {
    PrintStep(step) == token <==> !PlusIndex(step, token)
  }

  lemma StepReads(parent: Json, token: string)
    requires StepInto(Some(parent), token).Some? && '/' !in token
    ensures var step := StepOf(parent, token);
            SubStep(parent, step) == StepInto(Some(parent), token) && Prints(step, token)
  {
    EscapeUnescape(token);
    if parent.Arr? {
      IndexToken(token);
    }
  }

  /** One more token takes one more step. */
  lemma FollowMore(v: Json, tokens: seq<string>)
    requires tokens != [] && Follow(v, tokens).Some?
    ensures Follow(v, Init(tokens)).Some?
    ensures StepInto(Follow(v, Init(tokens)), Last(tokens)) == Follow(v, tokens)
    ensures PathOf(v, tokens) ==
            PathOf(v, Init(tokens)) + [StepOf(Follow(v, Init(tokens)).value, Last(tokens))]
  {
    hide StepOf, Child, Unescape;
  }

  lemma SubMore(v: Json, path: seq<PathStep>, step: PathStep, parent: Json)
    requires Sub(v, path) == Some(parent)
    ensures Sub(v, path + [step]) == SubStep(parent, step)
  {
    hide SubStep;
    assert Init(path + [step]) == path;
  }

  lemma {:induction false} PathOfReads(v: Json, tokens: seq<string>)
    requires Follow(v, tokens).Some? && forall t | t in tokens :: '/' !in t
    ensures var path := PathOf(v, tokens);
            && |path| == |tokens| && Sub(v, path) == Follow(v, tokens)
            && forall i | 0 <= i < |path| :: Prints(path[i], tokens[i])
    decreases |tokens|, 1
  {
    if tokens == [] {
      NothingFollowed(v);
    } else {
      PathOfReadsMore(v, tokens);
    }
  }

  lemma {:induction false} PathOfReadsMore(v: Json, tokens: seq<string>)
    requires tokens != [] && Follow(v, tokens).Some? && forall t | t in tokens :: '/' !in t
    ensures var path := PathOf(v, tokens);
            && |path| == |tokens| && Sub(v, path) == Follow(v, tokens)
            && forall i | 0 <= i < |path| :: Prints(path[i], tokens[i])
    decreases |tokens|, 0
  {
    hide Follow, StepOf, StepInto, SubStep, Sub, PathOf, Prints;
    var front, token := Init(tokens), Last(tokens);
    assert tokens == front + [token] && token in tokens && forall t | t in front :: t in tokens;
    FollowMore(v, tokens);
    PathOfReads(v, front);
    var parent := Follow(v, front).value;
    StepReads(parent, token);
    SubMore(v, PathOf(v, front), StepOf(parent, token), parent);
    AllPrint(PathOf(v, front), front, StepOf(parent, token), token);
  }

  lemma NothingFollowed(v: Json)
    ensures Follow(v, []) == Some(v) && PathOf(v, []) == [] && Sub(v, []) == Some(v)
  {
  }

  lemma AllPrint(path: seq<PathStep>, tokens: seq<string>, step: PathStep, token: string)
    requires |path| == |tokens| && (forall i | 0 <= i < |path| :: Prints(path[i], tokens[i])) && Prints(step, token)
    ensures forall i | 0 <= i < |path| + 1 :: Prints((path + [step])[i], (tokens + [token])[i])
  {
    hide Prints;
  }

  lemma IndexToken(token: string)
    requires Unescape(token).Some? && '/' !in token
    requires var key := Unescape(token).value;
             key != [] && !(|key| > 1 && key[0] == '0') && ParseIndex(key).Some?
    ensures var n := ParseIndex(Unescape(token).value).value;
            Decimal(n) == token <==> !(token != [] && token[0] == '+')
  {
    var key := Unescape(token).value;
    EscapeUnescape(token);
    DecimalToken(ParseIndex(key).value);
    EscapePlain(key);
    if key[0] != '+' {
      ReadsDecimal(key);
    }
  }

  lemma {:induction false} EscapePlain(key: string)
    requires '~' !in key && '/' !in key
    ensures Escape(key) == key
  {
    if key != [] {
      assert key == [key[0]] + key[1..];
      EscapePlain(key[1..]);
    }
  }

  predicate PlusFree(path: seq<PathStep>, tokens: seq<string>) {
    |path| == |tokens| && forall i | 0 <= i < |path| :: !PlusIndex(path[i], tokens[i])
  }

  /**
    Whatever a pointer evaluates to lies at the path it took, and the pointer is that path's printed
    form exactly when no array index carries a leading '+'.
   */
  lemma EvaluationHasPath(v: Json, pointer: string)
    requires Evaluate(v, pointer).Some? && pointer != []
    ensures var tokens := Split(pointer[1..]);
            && Follow(v, tokens).Some?
            && Sub(v, PathOf(v, tokens)) == Evaluate(v, pointer)
            && (pointer == Print(PathOf(v, tokens)) <==> PlusFree(PathOf(v, tokens), tokens))
  {
    hide PathOf, Follow, Sub, Print, PlusFree;
    var tokens := Split(pointer[1..]);
    PathOfReads(v, tokens);
    PrintedExactly(pointer, PathOf(v, tokens));
  }

  /** A pointer is the printed form of a path exactly when its tokens are. */
  lemma PrintedExactly(pointer: string, path: seq<PathStep>)
    requires pointer != [] && pointer[0] == '/'
    requires var tokens := Split(pointer[1..]);
             |path| == |tokens| && forall i | 0 <= i < |path| :: Prints(path[i], tokens[i])
    ensures pointer == Print(path) <==> PlusFree(path, Split(pointer[1..]))
  {
    hide Split, Unsplit, PrintStep, PlusIndex;
    var tokens := Split(pointer[1..]);
    UnsplitSplit(pointer[1..]);
    assert pointer == "/" + pointer[1..];
    PrintedTokens(path);
    if path != [] {
      SplitUnsplit(PrintSteps(path));
    }
    assert pointer == Print(path) <==> PrintSteps(path) == tokens;
    assert PrintSteps(path) == tokens <==> forall i | 0 <= i < |path| :: PrintStep(path[i]) == tokens[i];
  }

  /** The tolerated form: "/+0" reaches the first item, though section 4 allows only digits there. */
  lemma PlusIndexIsAccepted(v: Json)
    ensures Evaluate(Arr([v]), "/+0") == Some(v)
  {
    var token := "+0";
    SplitPlain(token);
    UnescapePlain(token);
    PlusZero();
    hide Split, Unescape, ParseIndex;
    assert "/+0"[1..] == token;
    assert Init([token]) == [] && Follow(Arr([v]), Init([token])) == Some(Arr([v]));
    assert Follow(Arr([v]), [token]) == StepInto(Some(Arr([v])), token);
  }

  lemma PlusZero()
    ensures ParseIndex("+0") == Some(0)
  {
    assert "+0"[1..] == "0" && Init("0") == [];
    assert DigitsValue("0") == 10 * DigitsValue(Init("0")) + Digit('0');
  }
}
