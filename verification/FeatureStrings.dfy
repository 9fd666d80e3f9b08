/**
 Signed feature strings (Support/lib/DeviceSpecs.cpp:86-141): enabled and disabled feature names as one
 comma-separated text and back, the last sign of a name winning.
 */
module FeatureStrings {
  import opened Common

  datatype Features = Features(enabled: seq<string>, disabled: seq<string>)

  // ----- encoding -----

  function Signed(sign: char, names: seq<string>): (r: seq<string>)
    ensures |r| == |names| && forall i | 0 <= i < |names| :: r[i] == [sign] + names[i]
  {
    seq(|names|, i requires 0 <= i < |names| => [sign] + names[i])
  }

  function Joined(tokens: seq<string>): string {
    if tokens == [] then ""
    else if |tokens| == 1 then tokens[0]
    else Joined(tokens[..|tokens| - 1]) + "," + tokens[|tokens| - 1]
  }

  function Tokens(f: Features): seq<string> {
    Signed('+', f.enabled) + Signed('-', f.disabled)
  }

  /** What `encodeFeatures` yields. */
  function Encode(f: Features): string {
    Joined(Tokens(f))
  }

  method AppendSigned(text: string, sign: char, names: seq<string>, ghost before: seq<string>) returns (result: string)
    requires text == Joined(before) && (text == "" <==> before == [])
    ensures result == Joined(before + Signed(sign, names))
    ensures result == "" <==> before + Signed(sign, names) == []
  {
    result := text;
    ghost var tokens := before;
    for i := 0 to |names|
      invariant tokens == before + Signed(sign, names)[..i]
      invariant result == Joined(tokens) && (result == "" <==> tokens == [])
    {
      ghost var next := tokens + [[sign] + names[i]];
      assert next[..|next| - 1] == tokens;
      if result != "" {
        result := result + ",";
      }
      result := result + [sign];
      result := result + names[i];
      tokens := next;
    }
    assert Signed(sign, names)[..|names|] == Signed(sign, names);
  }

  /** `encodeFeatures` */
  method EncodeFeatures(f: Features) returns (result: string)
    ensures result == Encode(f)
  {
    result := AppendSigned("", '+', f.enabled, []);
    assert [] + Signed('+', f.enabled) == Signed('+', f.enabled);
    result := AppendSigned(result, '-', f.disabled, Signed('+', f.enabled));
  }

  // ----- splitting -----

  /** All pieces between commas, empty ones included; never none. */
  function Pieces(s: string): (r: seq<string>)
    ensures r != []
  {
    if s == "" then [""]
    else
      var rest, last := Pieces(s[..|s| - 1]), s[|s| - 1];
      if last == ',' then rest + [""] else rest[|rest| - 1 := rest[|rest| - 1] + [last]]
  }

  function NonEmpty(pieces: seq<string>): seq<string> {
    if pieces == [] then []
    else
      var most, last := NonEmpty(pieces[..|pieces| - 1]), pieces[|pieces| - 1];
      if last == "" then most else most + [last]
  }

  /** `split(',', KeepEmpty=false)` */
  function Split(s: string): seq<string> {
    NonEmpty(Pieces(s))
  }

  // ----- decoding -----

  /** A token's name and sign; an unsigned name counts as enabled, a bare sign is ill-formed. */
  function ReadToken(token: string): Option<(string, bool)>
    requires token != ""
  {
    if token[0] == '+' || token[0] == '-' then
      if |token| < 2 then None else Some((token[1..], token[0] == '+'))
    else Some((token, true))
  }

  /** The loop's state: names in order of first appearance, and their latest signs. */
  datatype Tally = Tally(order: seq<string>, state: map<string, bool>)

  function Note(t: Tally, name: string, enabled: bool): Tally {
    Tally(if name in t.state then t.order else t.order + [name], t.state[name := enabled])
  }

  function Collect(tokens: seq<string>): Option<Tally>
    requires forall i | 0 <= i < |tokens| :: tokens[i] != ""
  {
    if tokens == [] then Some(Tally([], map[]))
    else
      match Collect(tokens[..|tokens| - 1])
      case None => None
      case Some(t) =>
        match ReadToken(tokens[|tokens| - 1])
        case None => None
        case Some((name, enabled)) => Some(Note(t, name, enabled))
  }

  /** The names whose latest sign is `enabled`, in order. */
  function Selected(order: seq<string>, state: map<string, bool>, enabled: bool): seq<string> {
    if order == [] then []
    else
      var most, last := Selected(order[..|order| - 1], state, enabled), order[|order| - 1];
      if last in state && state[last] == enabled then most + [last] else most
  }

  lemma {:induction false} NonEmptyTokens(pieces: seq<string>)
    ensures forall i | 0 <= i < |NonEmpty(pieces)| :: NonEmpty(pieces)[i] != "" && NonEmpty(pieces)[i] in pieces
  {
    if pieces != [] {
      NonEmptyTokens(pieces[..|pieces| - 1]);
    }
  }

  /** What `decodeFeatures` yields; None is its error. */
  function Decode(s: string): Option<Features> {
    NonEmptyTokens(Pieces(s));
    match Collect(Split(s))
    case None => None
    case Some(t) => Some(Features(Selected(t.order, t.state, true), Selected(t.order, t.state, false)))
  }

  lemma {:induction false} CollectFails(tokens: seq<string>, n: nat)
    requires (forall i | 0 <= i < |tokens| :: tokens[i] != "") && n <= |tokens| && Collect(tokens[..n]) == None
    ensures Collect(tokens) == None
    decreases |tokens|
  {
    if n < |tokens| {
      var most := tokens[..|tokens| - 1];
      assert most[..n] == tokens[..n];
      CollectFails(most, n);
    } else {
      assert tokens[..n] == tokens;
    }
  }

  ghost predicate Distinct(names: seq<string>) {
    forall i, j | 0 <= i < j < |names| :: names[i] != names[j]
  }

  /** The names are distinct, and exactly they have a sign. */
  ghost predicate TallyOk(t: Tally) {
    Distinct(t.order) && forall n :: n in t.order <==> n in t.state
  }

  lemma NoteKeeps(t: Tally, name: string, enabled: bool)
    requires TallyOk(t)
    ensures TallyOk(Note(t, name, enabled))
  {
    var next := Note(t, name, enabled);
    if name !in t.state {
      assert name !in t.order;
      assert forall n :: n in next.order <==> n in t.order || n == name;
    }
  }

  lemma {:induction false} TallyDistinct(tokens: seq<string>)
    requires forall i | 0 <= i < |tokens| :: tokens[i] != ""
    ensures Collect(tokens).Some? ==> TallyOk(Collect(tokens).value)
  {
    if tokens != [] {
      var most, last := Collect(tokens[..|tokens| - 1]), ReadToken(tokens[|tokens| - 1]);
      TallyDistinct(tokens[..|tokens| - 1]);
      if most.Some? && last.Some? {
        NoteKeeps(most.value, last.value.0, last.value.1);
      }
    }
  }

  /** The second loop of `decodeFeatures`. */
  method Partition(order: seq<string>, state: map<string, bool>) returns (enabled: seq<string>, disabled: seq<string>)
    requires forall n | n in order :: n in state
    ensures enabled == Selected(order, state, true) && disabled == Selected(order, state, false)
  {
    enabled, disabled := [], [];
    for i := 0 to |order|
      invariant enabled == Selected(order[..i], state, true) && disabled == Selected(order[..i], state, false)
    {
      assert order[..i + 1][..i] == order[..i];
      assert order[i] in order;
      if state[order[i]] {
        enabled := enabled + [order[i]];
      } else {
        disabled := disabled + [order[i]];
      }
    }
    assert order[..|order|] == order;
  }

  lemma CollectStep(tokens: seq<string>, i: nat, t: Tally)
    requires (forall k | 0 <= k < |tokens| :: tokens[k] != "") && i < |tokens| && Collect(tokens[..i]) == Some(t)
    ensures var read := ReadToken(tokens[i]);
            Collect(tokens[..i + 1]) == if read.Some? then Some(Note(t, read.value.0, read.value.1)) else None
  {
    assert tokens[..i + 1][..i] == tokens[..i];
  }

  /** `decodeFeatures` */
  method DecodeFeatures(s: string) returns (r: Option<Features>)
    ensures r == Decode(s)
  {
    NonEmptyTokens(Pieces(s));
    var tokens := Split(s);
    var order: seq<string>, state: map<string, bool> := [], map[];
    for i := 0 to |tokens|
      invariant Collect(tokens[..i]) == Some(Tally(order, state))
    {
      CollectStep(tokens, i, Tally(order, state));
      var token := tokens[i];
      var sign := token[0];
      var name, enabled := token, true;
      if sign == '+' || sign == '-' {
        if |token| < 2 {
          CollectFails(tokens, i + 1);
          return None;
        }
        name, enabled := token[1..], sign == '+';
      }
      if name !in state {
        order := order + [name];
      }
      state := state[name := enabled];
    }
    assert tokens[..|tokens|] == tokens;
    TallyDistinct(tokens);
    var enabled, disabled := Partition(order, state);
    r := Some(Features(enabled, disabled));
  }

  // ----- the latest sign wins -----

  /** The sign of the last token that names n. */
  function LatestSign(tokens: seq<string>, n: string): Option<bool>
    requires forall i | 0 <= i < |tokens| :: tokens[i] != ""
  {
    if tokens == [] then None
    else
      var last := ReadToken(tokens[|tokens| - 1]);
      if last.Some? && last.value.0 == n then Some(last.value.1) else LatestSign(tokens[..|tokens| - 1], n)
  }

  lemma {:induction false} TallyIsLatest(tokens: seq<string>, n: string)
    requires forall i | 0 <= i < |tokens| :: tokens[i] != ""
    ensures Collect(tokens).Some? ==>
              LatestSign(tokens, n) == if n in Collect(tokens).value.state then Some(Collect(tokens).value.state[n]) else None
  {
    if tokens != [] {
      TallyIsLatest(tokens[..|tokens| - 1], n);
    }
  }

  lemma {:induction false} SelectedMembers(order: seq<string>, state: map<string, bool>, enabled: bool, n: string)
    ensures n in Selected(order, state, enabled) <==> n in order && n in state && state[n] == enabled
  {
    if order != [] {
      SelectedMembers(order[..|order| - 1], state, enabled, n);
      assert order == order[..|order| - 1] + [order[|order| - 1]];
    }
  }

  /** A decoded name is enabled or disabled according to its last occurrence in the text. */
  lemma LatestSignWins(s: string, n: string)
    requires Decode(s).Some?
    ensures forall i | 0 <= i < |Split(s)| :: Split(s)[i] != ""
    ensures n in Decode(s).value.enabled <==> LatestSign(Split(s), n) == Some(true)
    ensures n in Decode(s).value.disabled <==> LatestSign(Split(s), n) == Some(false)
  {
    NonEmptyTokens(Pieces(s));
    var t := Collect(Split(s)).value;
    TallyDistinct(Split(s));
    TallyIsLatest(Split(s), n);
    SelectedMembers(t.order, t.state, true, n);
    SelectedMembers(t.order, t.state, false, n);
  }

  // ----- round trip, and exactly when -----

  predicate NameOk(n: string) {
    n != "" && ',' !in n
  }

  /** No empty name, no comma, and no name twice, neither within a list nor across the two. */
  ghost predicate WellFormed(f: Features) {
    var all := f.enabled + f.disabled;
    (forall i | 0 <= i < |all| :: NameOk(all[i])) && Distinct(all)
  }

  lemma {:induction false} PiecesClean(s: string)
    ensures forall i | 0 <= i < |Pieces(s)| :: ',' !in Pieces(s)[i]
  {
    if s != "" {
      PiecesClean(s[..|s| - 1]);
    }
  }

  lemma {:induction false} TallyClean(tokens: seq<string>)
    requires forall i | 0 <= i < |tokens| :: tokens[i] != "" && ',' !in tokens[i]
    ensures Collect(tokens).Some? ==> forall i | 0 <= i < |Collect(tokens).value.order| :: NameOk(Collect(tokens).value.order[i])
  {
    if tokens != [] {
      TallyClean(tokens[..|tokens| - 1]);
    }
  }

  lemma {:induction false} SelectedDistinct(order: seq<string>, state: map<string, bool>, enabled: bool)
    requires Distinct(order)
    ensures Distinct(Selected(order, state, enabled))
  {
    if order != [] {
      var most, last := order[..|order| - 1], order[|order| - 1];
      SelectedDistinct(most, state, enabled);
      SelectedMembers(most, state, enabled, last);
    }
  }

  /** Whatever text is decoded, the result is well formed. */
  lemma DecodedIsWellFormed(s: string)
    requires Decode(s).Some?
    ensures WellFormed(Decode(s).value)
  {
    NonEmptyTokens(Pieces(s));
    PiecesClean(s);
    var tokens := Split(s);
    TallyDistinct(tokens);
    TallyClean(tokens);
    var t, f := Collect(tokens).value, Decode(s).value;
    SelectedDistinct(t.order, t.state, true);
    SelectedDistinct(t.order, t.state, false);
    var all := f.enabled + f.disabled;
    forall i | 0 <= i < |all| ensures NameOk(all[i]) {
      SelectedMembers(t.order, t.state, true, all[i]);
      SelectedMembers(t.order, t.state, false, all[i]);
      assert all[i] in f.enabled || all[i] in f.disabled;
    }
    forall i, j | 0 <= i < j < |all| ensures all[i] != all[j] {
      if i < |f.enabled| <= j {
        SelectedMembers(t.order, t.state, true, all[i]);
        SelectedMembers(t.order, t.state, false, all[j]);
        assert all[i] in f.enabled && all[j] in f.disabled;
      }
    }
  }

  lemma {:induction false} PiecesOfOne(t: string)
    requires ',' !in t
    ensures Pieces(t) == [t]
  {
    if t != "" {
      PiecesOfOne(t[..|t| - 1]);
      assert t[..|t| - 1] + [t[|t| - 1]] == t;
    }
  }

  lemma {:induction false} PiecesOfTwo(a: string, b: string)
    requires ',' !in b
    ensures Pieces(a + "," + b) == Pieces(a) + [b]
  {
    var s := a + "," + b;
    if b == "" {
      assert s[..|s| - 1] == a;
    } else {
      var most := b[..|b| - 1];
      PiecesOfTwo(a, most);
      assert s[..|s| - 1] == a + "," + most;
      assert most + [b[|b| - 1]] == b;
    }
  }

  lemma {:induction false} PiecesOfJoined(tokens: seq<string>)
    requires tokens != [] && forall i | 0 <= i < |tokens| :: ',' !in tokens[i]
    ensures Pieces(Joined(tokens)) == tokens
  {
    if |tokens| == 1 {
      PiecesOfOne(tokens[0]);
    } else {
      var most, last := tokens[..|tokens| - 1], tokens[|tokens| - 1];
      PiecesOfJoined(most);
      PiecesOfTwo(Joined(most), last);
      assert most + [last] == tokens;
    }
  }

  lemma {:induction false} NonEmptyAll(pieces: seq<string>)
    requires forall i | 0 <= i < |pieces| :: pieces[i] != ""
    ensures NonEmpty(pieces) == pieces
  {
    if pieces != [] {
      NonEmptyAll(pieces[..|pieces| - 1]);
      assert pieces[..|pieces| - 1] + [pieces[|pieces| - 1]] == pieces;
    }
  }

  lemma SplitOfJoined(tokens: seq<string>)
    requires forall i | 0 <= i < |tokens| :: ',' !in tokens[i] && tokens[i] != ""
    ensures Split(Joined(tokens)) == tokens
  {
    if tokens == [] {
      assert Pieces("") == [""];
      assert NonEmpty([""]) == [];
    } else {
      PiecesOfJoined(tokens);
      NonEmptyAll(tokens);
    }
  }

  /** Tokens that spell the names with the given signs. */
  ghost predicate Spells(tokens: seq<string>, names: seq<string>, signs: seq<bool>) {
    && |tokens| == |names| == |signs|
    && (forall i | 0 <= i < |names| :: NameOk(names[i]) && tokens[i] == [if signs[i] then '+' else '-'] + names[i])
  }

  lemma ReadsSigned(token: string, name: string, sign: bool)
    requires NameOk(name) && token == [if sign then '+' else '-'] + name
    ensures ReadToken(token) == Some((name, sign))
  {
    assert token[1..] == name;
  }

  ghost predicate SpelledTally(t: Tally, names: seq<string>, signs: seq<bool>) {
    && t.order == names && |signs| == |names|
    && (forall n :: n in t.state <==> n in names)
    && (forall i | 0 <= i < |names| :: names[i] in t.state && t.state[names[i]] == signs[i])
  }

  lemma NoteSpelled(t: Tally, names: seq<string>, signs: seq<bool>, name: string, sign: bool)
    requires SpelledTally(t, names, signs) && name !in names
    ensures SpelledTally(Note(t, name, sign), names + [name], signs + [sign])
  {
  }

  lemma SpellsPrefix(tokens: seq<string>, names: seq<string>, signs: seq<bool>, k: nat)
    requires Spells(tokens, names, signs) && Distinct(names) && k < |names|
    ensures Spells(tokens[..k], names[..k], signs[..k]) && Distinct(names[..k]) && names[k] !in names[..k]
    ensures tokens[k] != "" && ReadToken(tokens[k]) == Some((names[k], signs[k]))
  {
    ReadsSigned(tokens[k], names[k], signs[k]);
  }

  lemma CollectNext(tokens: seq<string>, last: string)
    requires (forall i | 0 <= i < |tokens| :: tokens[i] != "") && last != ""
    ensures forall i | 0 <= i < |tokens + [last]| :: (tokens + [last])[i] != ""
    ensures var t, read, next := Collect(tokens), ReadToken(last), Collect(tokens + [last]);
            next == if t.Some? && read.Some? then Some(Note(t.value, read.value.0, read.value.1)) else None
  {
    var all := tokens + [last];
    assert all[..|all| - 1] == tokens;
  }

  /** The tokens tally to the names with their signs. */
  ghost predicate TalliesTo(tokens: seq<string>, names: seq<string>, signs: seq<bool>) {
    && (forall i | 0 <= i < |tokens| :: tokens[i] != "")
    && Collect(tokens).Some? && SpelledTally(Collect(tokens).value, names, signs)
  }

  lemma SpelledStep(tokens: seq<string>, names: seq<string>, signs: seq<bool>, token: string, name: string, sign: bool)
    requires TalliesTo(tokens, names, signs) && name !in names
    requires token != "" && ReadToken(token) == Some((name, sign))
    ensures TalliesTo(tokens + [token], names + [name], signs + [sign])
  {
    CollectNext(tokens, token);
    NoteSpelled(Collect(tokens).value, names, signs, name, sign);
  }

  lemma {:induction false} CollectSpelled(tokens: seq<string>, names: seq<string>, signs: seq<bool>)
    requires Spells(tokens, names, signs) && Distinct(names)
    ensures TalliesTo(tokens, names, signs)
  {
    if tokens != [] {
      var k := |tokens| - 1;
      SpellsPrefix(tokens, names, signs, k);
      CollectSpelled(tokens[..k], names[..k], signs[..k]);
      SpelledStep(tokens[..k], names[..k], signs[..k], tokens[k], names[k], signs[k]);
      LastApart(tokens);
      LastApart(names);
      LastApart(signs);
    }
  }

  lemma LastApart<T>(s: seq<T>)
    requires s != []
    ensures s[..|s| - 1] + [s[|s| - 1]] == s
  {
  }

  lemma {:induction false} SelectedAppend(a: seq<string>, b: seq<string>, state: map<string, bool>, enabled: bool)
    ensures Selected(a + b, state, enabled) == Selected(a, state, enabled) + Selected(b, state, enabled)
  {
    if b == [] {
      assert a + b == a;
    } else {
      var most, last := b[..|b| - 1], b[|b| - 1];
      SelectedAppend(a, most, state, enabled);
      assert (a + b)[..|a + b| - 1] == a + most;
    }
  }

  lemma {:induction false} SelectedAll(a: seq<string>, state: map<string, bool>, enabled: bool)
    requires forall i | 0 <= i < |a| :: a[i] in state && state[a[i]] == enabled
    ensures Selected(a, state, enabled) == a && Selected(a, state, !enabled) == []
  {
    if a != [] {
      SelectedAll(a[..|a| - 1], state, enabled);
      assert a == a[..|a| - 1] + [a[|a| - 1]];
    }
  }

  /** Selecting from names that all have one sign, followed by names that all have the other. */
  lemma SelectedParts(a: seq<string>, b: seq<string>, state: map<string, bool>)
    requires forall i | 0 <= i < |a| :: a[i] in state && state[a[i]]
    requires forall i | 0 <= i < |b| :: b[i] in state && !state[b[i]]
    ensures Selected(a + b, state, true) == a && Selected(a + b, state, false) == b
  {
    SelectedAppend(a, b, state, true);
    SelectedAppend(a, b, state, false);
    SelectedAll(a, state, true);
    SelectedAll(b, state, false);
  }

  function Signs(f: Features): (r: seq<bool>) {
    seq(|f.enabled|, _ => true) + seq(|f.disabled|, _ => false)
  }

  lemma TokensSpell(f: Features)
    requires WellFormed(f)
    ensures Spells(Tokens(f), f.enabled + f.disabled, Signs(f))
    ensures forall i | 0 <= i < |Tokens(f)| :: ',' !in Tokens(f)[i] && Tokens(f)[i] != ""
  {
  }

  lemma SpelledSelection(t: Tally, f: Features)
    requires SpelledTally(t, f.enabled + f.disabled, Signs(f))
    ensures Selected(t.order, t.state, true) == f.enabled && Selected(t.order, t.state, false) == f.disabled
  {
    var names, signs := f.enabled + f.disabled, Signs(f);
    forall i | 0 <= i < |f.enabled| ensures f.enabled[i] in t.state && t.state[f.enabled[i]] {
      assert names[i] == f.enabled[i] && signs[i];
    }
    forall i | 0 <= i < |f.disabled| ensures f.disabled[i] in t.state && !t.state[f.disabled[i]] {
      assert names[|f.enabled| + i] == f.disabled[i] && !signs[|f.enabled| + i];
    }
    SelectedParts(f.enabled, f.disabled, t.state);
  }

  lemma WellFormedRoundTrip(f: Features)
    requires WellFormed(f)
    ensures Decode(Encode(f)) == Some(f)
  {
    TokensSpell(f);
    SplitOfJoined(Tokens(f));
    CollectSpelled(Tokens(f), f.enabled + f.disabled, Signs(f));
    SpelledSelection(Collect(Tokens(f)).value, f);
  }

  /** Decoding inverts encoding exactly on the well-formed feature lists. */
  lemma RoundTripExactly(f: Features)
    ensures Decode(Encode(f)) == Some(f) <==> WellFormed(f)
  {
    if WellFormed(f) {
      WellFormedRoundTrip(f);
    } else if Decode(Encode(f)) == Some(f) {
      DecodedIsWellFormed(Encode(f));
    }
  }

  // ----- what the text means, from its pieces alone -----

  /** Pieces with commas between them; at least one. */
  function Glued(pieces: seq<string>): string
    requires pieces != []
  {
    if |pieces| == 1 then pieces[0] else pieces[0] + "," + Glued(pieces[1..])
  }

  lemma {:induction false} GluedLast(most: seq<string>, last: string)
    requires most != []
    ensures Glued(most + [last]) == Glued(most) + "," + last
  {
    var all := most + [last];
    if |most| == 1 {
      assert all[1..] == [last];
    } else {
      GluedLast(most[1..], last);
      assert all[1..] == most[1..] + [last];
    }
  }

  lemma {:induction false} GluedMore(pieces: seq<string>, c: char)
    requires pieces != []
    ensures Glued(pieces[|pieces| - 1 := pieces[|pieces| - 1] + [c]]) == Glued(pieces) + [c]
  {
    var more := pieces[|pieces| - 1 := pieces[|pieces| - 1] + [c]];
    if |pieces| > 1 {
      GluedMore(pieces[1..], c);
      assert more[1..] == pieces[1..][|pieces| - 2 := pieces[1..][|pieces| - 2] + [c]];
    }
  }

  /** The pieces are the text cut at its commas. */
  lemma {:induction false} PiecesExactly(s: string)
    ensures Glued(Pieces(s)) == s
    ensures forall i | 0 <= i < |Pieces(s)| :: ',' !in Pieces(s)[i]
  {
    PiecesClean(s);
    if s != "" {
      var rest, last := Pieces(s[..|s| - 1]), s[|s| - 1];
      PiecesExactly(s[..|s| - 1]);
      assert s == s[..|s| - 1] + [last];
      if last == ',' {
        GluedLast(rest, "");
      } else {
        GluedMore(rest, last);
      }
    }
  }

  /** The piece is the name itself, unless that begins with a sign, or the name after a sign. */
  predicate Names(piece: string, n: string) {
    n != "" && ((n[0] != '+' && n[0] != '-' && piece == n) || piece == "+" + n || piece == "-" + n)
  }

  /** Piece i is the last that names n. */
  predicate LastNaming(pieces: seq<string>, i: int, n: string) {
    0 <= i < |pieces| && Names(pieces[i], n) && forall j | i < j < |pieces| :: !Names(pieces[j], n)
  }

  /** A piece names m before any names n. */
  predicate NamedBefore(pieces: seq<string>, m: string, n: string) {
    exists i | 0 <= i < |pieces| :: Names(pieces[i], m) && forall j | 0 <= j <= i :: !Names(pieces[j], n)
  }

  predicate BareSign(piece: string) {
    piece == "+" || piece == "-"
  }

  lemma TokenExactly(token: string, n: string)
    requires token != ""
    ensures ReadToken(token).None? <==> BareSign(token)
    ensures ReadToken(token).Some? && ReadToken(token).value.0 == n <==> Names(token, n)
    ensures Names(token, n) ==> ReadToken(token) == Some((n, token != "-" + n))
  {
    if token[0] == '+' || token[0] == '-' {
      assert token == [token[0]] + token[1..];
    }
  }

  predicate Named(pieces: seq<string>, n: string) {
    exists i | 0 <= i < |pieces| :: Names(pieces[i], n)
  }

  lemma NamedMore(most: seq<string>, last: string, n: string)
    ensures Named(most + [last], n) <==> Named(most, n) || Names(last, n)
  {
    var all := most + [last];
    assert all[|most|] == last && forall i | 0 <= i < |most| :: all[i] == most[i];
  }

  /** The last piece that names n gives it this sign. */
  predicate SignedLast(pieces: seq<string>, n: string, enabled: bool) {
    exists i | 0 <= i < |pieces| :: LastNaming(pieces, i, n) && (enabled <==> pieces[i] != "-" + n)
  }

  lemma SignUnique(pieces: seq<string>, n: string)
    ensures !(SignedLast(pieces, n, true) && SignedLast(pieces, n, false))
    ensures SignedLast(pieces, n, true) || SignedLast(pieces, n, false) ==> Named(pieces, n)
  {
  }

  lemma LastNamed(most: seq<string>, last: string, n: string)
    requires Names(last, n)
    ensures SignedLast(most + [last], n, last != "-" + n)
  {
    var all := most + [last];
    assert all[|most|] == last && LastNaming(all, |most|, n);
  }

  lemma LastKept(most: seq<string>, last: string, n: string, enabled: bool)
    requires !Names(last, n) && SignedLast(most, n, enabled)
    ensures SignedLast(most + [last], n, enabled)
  {
    var all := most + [last];
    var i :| 0 <= i < |most| && LastNaming(most, i, n) && (enabled <==> most[i] != "-" + n);
    assert all[i] == most[i];
    forall j | i < j < |all| ensures !Names(all[j], n) {
      assert j < |most| ==> all[j] == most[j];
    }
    assert LastNaming(all, i, n);
  }

  /** What the tokens say of a name is what the pieces say. */
  ghost predicate Reads(sign: Option<bool>, pieces: seq<string>, n: string) {
    match sign
    case Some(enabled) => SignedLast(pieces, n, enabled)
    case None => !Named(pieces, n)
  }

  lemma ReadsMore(most: seq<string>, last: string, n: string, sign: Option<bool>)
    requires Reads(sign, most, n)
    ensures Reads(if Names(last, n) then Some(last != "-" + n) else sign, most + [last], n)
  {
    NamedMore(most, last, n);
    if Names(last, n) {
      LastNamed(most, last, n);
    } else if sign.Some? {
      LastKept(most, last, n, sign.value);
    }
  }

  lemma LatestMore(tokens: seq<string>, last: string, n: string)
    requires (forall i | 0 <= i < |tokens| :: tokens[i] != "") && last != ""
    ensures forall i | 0 <= i < |tokens + [last]| :: (tokens + [last])[i] != ""
    ensures LatestSign(tokens + [last], n) == if Names(last, n) then Some(last != "-" + n) else LatestSign(tokens, n)
  {
    var all := tokens + [last];
    assert all[..|all| - 1] == tokens;
    TokenExactly(last, n);
  }

  lemma {:induction false} LatestExactly(pieces: seq<string>, n: string)
    ensures forall i | 0 <= i < |NonEmpty(pieces)| :: NonEmpty(pieces)[i] != ""
    ensures Reads(LatestSign(NonEmpty(pieces), n), pieces, n)
  {
    NonEmptyTokens(pieces);
    if pieces != [] {
      var most, last := pieces[..|pieces| - 1], pieces[|pieces| - 1];
      LatestExactly(most, n);
      ReadsMore(most, last, n, LatestSign(NonEmpty(most), n));
      assert most + [last] == pieces;
      if last != "" {
        LatestMore(NonEmpty(most), last, n);
      }
    }
  }

  predicate HasBareSign(pieces: seq<string>) {
    exists i | 0 <= i < |pieces| :: BareSign(pieces[i])
  }

  lemma BareMore(most: seq<string>, last: string)
    ensures HasBareSign(most + [last]) <==> HasBareSign(most) || BareSign(last)
  {
    var all := most + [last];
    assert all[|most|] == last && forall i | 0 <= i < |most| :: all[i] == most[i];
  }

  lemma CollectMore(tokens: seq<string>, last: string)
    requires (forall i | 0 <= i < |tokens| :: tokens[i] != "") && last != ""
    ensures forall i | 0 <= i < |tokens + [last]| :: (tokens + [last])[i] != ""
    ensures Collect(tokens + [last]).None? <==> Collect(tokens).None? || BareSign(last)
  {
    var all := tokens + [last];
    assert all[..|all| - 1] == tokens;
    TokenExactly(last, "");
  }

  lemma {:induction false} FailsExactly(pieces: seq<string>)
    ensures forall i | 0 <= i < |NonEmpty(pieces)| :: NonEmpty(pieces)[i] != ""
    ensures Collect(NonEmpty(pieces)).None? <==> HasBareSign(pieces)
  {
    NonEmptyTokens(pieces);
    if pieces != [] {
      var most, last := pieces[..|pieces| - 1], pieces[|pieces| - 1];
      FailsExactly(most);
      BareMore(most, last);
      assert most + [last] == pieces;
      if last != "" {
        CollectMore(NonEmpty(most), last);
      }
    }
  }

  /**
   Decoding, from the pieces of the text: it fails exactly on a bare sign; otherwise a name is disabled if
   the last piece that names it has a minus, and enabled if that has a plus or no sign.
   */
  lemma DecodedExactly(s: string, n: string)
    ensures Decode(s).None? <==> HasBareSign(Pieces(s))
    ensures Decode(s).Some? ==>
              && (n in Decode(s).value.enabled <==> SignedLast(Pieces(s), n, true))
              && (n in Decode(s).value.disabled <==> SignedLast(Pieces(s), n, false))
  {
    FailsExactly(Pieces(s));
    LatestExactly(Pieces(s), n);
    SignUnique(Pieces(s), n);
    if Decode(s).Some? {
      LatestSignWins(s, n);
    }
  }

  // ----- the order of the decoded names -----

  ghost predicate InOrder(pieces: seq<string>, names: seq<string>) {
    forall a, b | 0 <= a < b < |names| :: NamedBefore(pieces, names[a], names[b])
  }

  lemma BeforeMore(most: seq<string>, last: string, m: string, n: string)
    requires NamedBefore(most, m, n) || (Named(most, m) && !Named(most, n))
    ensures NamedBefore(most + [last], m, n)
  {
    var all := most + [last];
    var i :| 0 <= i < |most| && Names(most[i], m) && (Named(most, n) ==> forall j | 0 <= j <= i :: !Names(most[j], n));
    assert all[i] == most[i] && forall j | 0 <= j <= i :: all[j] == most[j];
  }

  /** The tally's names are those the pieces name, in that order. */
  ghost predicate TallyRight(pieces: seq<string>, t: Tally) {
    InOrder(pieces, t.order) && (forall n :: n in t.state <==> Named(pieces, n)) && TallyOk(t)
  }

  lemma TallyMore(most: seq<string>, last: string, t: Tally, name: string, enabled: bool)
    requires TallyRight(most, t) && forall n :: Names(last, n) <==> n == name
    ensures TallyRight(most + [last], Note(t, name, enabled))
  {
    var next, all := Note(t, name, enabled), most + [last];
    NoteKeeps(t, name, enabled);
    forall n ensures n in next.state <==> Named(all, n) {
      NamedMore(most, last, n);
    }
    forall a, b | 0 <= a < b < |next.order| ensures NamedBefore(all, next.order[a], next.order[b]) {
      assert next.order[a] == t.order[a] && t.order[a] in t.order;
      BeforeMore(most, last, next.order[a], next.order[b]);
    }
  }

  lemma SameTally(most: seq<string>, last: string, t: Tally)
    requires TallyRight(most, t) && forall n :: !Names(last, n)
    ensures TallyRight(most + [last], t)
  {
    forall n ensures n in t.state <==> Named(most + [last], n) {
      NamedMore(most, last, n);
    }
    forall a, b | 0 <= a < b < |t.order| ensures NamedBefore(most + [last], t.order[a], t.order[b]) {
      BeforeMore(most, last, t.order[a], t.order[b]);
    }
  }

  lemma TokenNames(last: string)
    requires last != "" && ReadToken(last).Some?
    ensures forall n :: Names(last, n) <==> n == ReadToken(last).value.0
  {
    forall n ensures Names(last, n) <==> n == ReadToken(last).value.0 {
      TokenExactly(last, n);
    }
  }

  lemma {:induction false} TallyInOrder(pieces: seq<string>)
    ensures forall i | 0 <= i < |NonEmpty(pieces)| :: NonEmpty(pieces)[i] != ""
    ensures Collect(NonEmpty(pieces)).Some? ==> TallyRight(pieces, Collect(NonEmpty(pieces)).value)
  {
    NonEmptyTokens(pieces);
    if pieces != [] {
      var most, last := pieces[..|pieces| - 1], pieces[|pieces| - 1];
      TallyInOrder(most);
      assert most + [last] == pieces;
      if last != "" {
        CollectNext(NonEmpty(most), last);
      }
      if Collect(NonEmpty(pieces)).Some? {
        var t := Collect(NonEmpty(most)).value;
        if last == "" {
          SameTally(most, last, t);
        } else {
          TokenNames(last);
          TallyMore(most, last, t, ReadToken(last).value.0, ReadToken(last).value.1);
        }
      }
    }
  }

  lemma {:induction false} SelectedInOrder(pieces: seq<string>, order: seq<string>, state: map<string, bool>, enabled: bool)
    requires InOrder(pieces, order)
    ensures InOrder(pieces, Selected(order, state, enabled))
  {
    if order != [] {
      var most, last := order[..|order| - 1], order[|order| - 1];
      SelectedInOrder(pieces, most, state, enabled);
      var chosen := Selected(most, state, enabled);
      forall a | 0 <= a < |chosen| ensures NamedBefore(pieces, chosen[a], last) {
        SelectedMembers(most, state, enabled, chosen[a]);
        var x :| 0 <= x < |most| && most[x] == chosen[a];
        assert order[x] == chosen[a] && order[|order| - 1] == last;
      }
    }
  }

  /** Both lists keep the order in which the text first names their members. */
  lemma DecodedInOrder(s: string)
    requires Decode(s).Some?
    ensures InOrder(Pieces(s), Decode(s).value.enabled) && InOrder(Pieces(s), Decode(s).value.disabled)
  {
    TallyInOrder(Pieces(s));
    var t := Collect(Split(s)).value;
    SelectedInOrder(Pieces(s), t.order, t.state, true);
    SelectedInOrder(Pieces(s), t.order, t.state, false);
  }

  // ----- the encoded text -----

  lemma {:induction false} JoinedIsGlued(tokens: seq<string>)
    requires tokens != []
    ensures Joined(tokens) == Glued(tokens)
  {
    if |tokens| > 1 {
      var k := |tokens| - 1;
      JoinedIsGlued(tokens[..k]);
      GluedLast(tokens[..k], tokens[k]);
      assert tokens[..k] + [tokens[k]] == tokens;
    }
  }

  function Marked(mark: string, names: seq<string>): (r: seq<string>)
    ensures |r| == |names| && forall i | 0 <= i < |names| :: r[i] == mark + names[i]
  {
    seq(|names|, i requires 0 <= i < |names| => mark + names[i])
  }

  lemma MarkedIsSigned(mark: string, sign: char, names: seq<string>)
    requires mark == [sign]
    ensures Marked(mark, names) == Signed(sign, names)
  {
  }

  /** The text is the names in order, the enabled ones with a plus, then the disabled ones with a minus. */
  lemma EncodedExactly(f: Features)
    ensures var tokens := Marked("+", f.enabled) + Marked("-", f.disabled);
            Encode(f) == if tokens == [] then "" else Glued(tokens)
  {
    MarkedIsSigned("+", '+', f.enabled);
    MarkedIsSigned("-", '-', f.disabled);
    if Tokens(f) != [] {
      JoinedIsGlued(Tokens(f));
    }
  }
}
