/** XML text that arrives in pieces: what a call leaves over is handed in again in front of the next piece. */
module XerPieces {
  import opened Octets
  import opened EnumMap
  import opened XerTokens
  import opened EntityCodec
  import opened EntityText
  import opened XerStrings

  // ---------------------------------------------------------------- tokens that reach the end of the input

  /** Between calls the tokenizer is in a text or in a comment, or before the '<' that broke a tag off. */
  predicate Kept(place: Place, s: seq<Octet>) {
    place.InText? || place.InComment? || (place.TagBody? && s != [] && s[0] == LESS)
  }

  lemma {:induction false} KeptAfter(place: Place, s: seq<Octet>, i: nat)
    requires i <= |s| && From(place, s, i).Cut?
    ensures var n := From(place, s, i);
            Kept(n.place, s[n.size..]) && (n.size == |s| ==> n.place.InText? || n.place.InComment?)
    decreases |s| - i
  {
    if i < |s| {
      var t := Turn(place, s[i]);
      if t.Move? || (t.EndsBefore? && i == 0) {
        KeptAfter(t.place, s, i + 1);
      }
    }
  }

  /** A '<' that begins neither a tag nor a comment. */
  predicate LoneLess(s: seq<Octet>) {
    |s| >= 2 && s[0] == LESS && !IsAlpha(s[1]) && s[1] != SLASH && s[1] != EXCLAM
  }

  lemma LoneLessToken(place: Place, s: seq<Octet>)
    requires Kept(place, s) && !place.InComment? && LoneLess(s)
    ensures From(place, s, 0) == Cut(TextKind, 2, InText)
  {
    assert From(place, s, 0) == From(TagStart, s, 1);
  }

  lemma {:induction false} InTagNoText(place: Place, s: seq<Octet>, i: nat)
    requires 0 < i <= |s| && !place.InText? && !place.TagStart?
    ensures From(place, s, i).Cut? ==> !From(place, s, i).kind.TextKind?
    decreases |s| - i
  {
    if i < |s| {
      var t := Turn(place, s[i]);
      if t.Move? {
        InTagNoText(t.place, s, i + 1);
      }
    }
  }

  /** The two kinds of text tokens. */
  lemma TextShape(place: Place, s: seq<Octet>)
    requires Kept(place, s) && From(place, s, 0).Cut? && From(place, s, 0).kind.TextKind?
    ensures s != [] && !place.InComment? && From(place, s, 0).place.InText?
    ensures LoneLess(s) || (s[0] != LESS && place.InText? && From(place, s, 0).size == LessAt(s))
  {
    if s == [] {
    } else if place.InComment? {
      InTagNoText(Turn(place, s[0]).place, s, 1);
    } else if s[0] != LESS {
      TextRun(s);
    } else if !LoneLess(s) && |s| >= 2 {
      InTagNoText(Turn(TagStart, s[1]).place, s, 2);
    } else {
      LoneLessOr(place, s);
    }
  }

  lemma LoneLessOr(place: Place, s: seq<Octet>)
    requires Kept(place, s) && !place.InComment? && s != [] && s[0] == LESS && (LoneLess(s) || |s| == 1)
    ensures if LoneLess(s) then From(place, s, 0) == Cut(TextKind, 2, InText) else From(place, s, 0) == Wait
  {
    assert From(place, s, 0) == From(TagStart, s, 1);
  }

  predicate InsideComment(place: Place) {
    place.InComment? || place.CloseDash2? || place.CloseAngle?
  }

  /** Octets that are passed before do not matter to a comment. */
  lemma {:induction false} CommentShift(place: Place, s: seq<Octet>, t: seq<Octet>, i: nat)
    requires InsideComment(place) && 0 < i <= |t|
    ensures var (whole, rest) := (From(place, s + t, |s| + i), From(place, t, i));
            if rest.Wait? then whole.Wait?
            else rest.kind.CommentKind? && whole == Cut(CommentKind, |s| + rest.size, rest.place)
    decreases |t| - i
  {
    if i < |t| {
      assert (s + t)[|s| + i] == t[i];
      if Turn(place, t[i]).Move? {
        CommentShift(Turn(place, t[i]).place, s, t, i + 1);
      }
    }
  }

  /** A comment that reaches the end of the input is complete, or goes on as if nothing had been cut. */
  lemma {:induction false} CommentAtEnd(place: Place, s: seq<Octet>, t: seq<Octet>, i: nat)
    requires i <= |s| && From(place, s, i).Cut? && From(place, s, i).kind.CommentKind? && From(place, s, i).size == |s|
    ensures From(place, s, i).place.InText? || From(place, s, i).place.InComment?
    ensures From(place, s, i).place.InText? ==> From(place, s + t, i) == From(place, s, i)
    ensures From(place, s, i).place.InComment? ==> From(place, s + t, i) == From(InComment, s + t, |s|)
    decreases |s| - i
  {
    if i < |s| {
      assert (s + t)[i] == s[i];
      var u := Turn(place, s[i]);
      if u.Move? || (u.EndsBefore? && i == 0) {
        CommentAtEnd(u.place, s, t, i + 1);
      }
    }
  }

  // ---------------------------------------------------------------- a text in two pieces

  lemma {:induction false} StallsAgain(a: seq<Octet>)
    requires Expand(a, false).Expanded?
    ensures var u := Expand(a, false).used;
            && Expand(a[u..], false) == Expanded([], 0)
            && (u < |a| ==> a[u] == AMP)
    decreases |a|
  {
    hide Entity;
    if a != [] {
      ExpandStep(a, false);
      if a[0] != AMP {
        StallsAgain(a[1..]);
      } else if Entity(a).Emit? {
        EntityFits(a);
        StallsAgain(a[Entity(a).used..]);
      } else {
        ExpandEnds(a, false);
        assert a[0..] == a;
      }
    }
  }

  /** Two outcomes are the same to a caller; of a call that wants more, the rest decides. */
  predicate Same(a: Run, b: Run) {
    a.code == b.code && (a.code.Closed? || a.code.Refused? ==> a == b)
  }

  /** Reading on with what a call left over and the next piece. */
  ghost function Continued(need: seq<Octet>, r: Run, s: seq<Octet>, t: seq<Octet>): Run
    requires r.consumed <= |s|
  {
    if r.code.More? then Past(r.consumed, Decode(need, r.state, s[r.consumed..] + t)) else r
  }

  /** What the text up to the first '<' stands for. */
  ghost function FirstRun(s: seq<Octet>): Expansion {
    Expand(s[..LessAt(s)], LessAt(s) < |s|)
  }

  lemma TextStep(need: seq<Octet>, st: Reading, s: seq<Octet>)
    requires st.place.InText? && st.inside && s != [] && s[0] != LESS
    ensures var (e, r) := (FirstRun(s), Decode(need, st, s));
            if e.Aborted? then r == Run(Crashed, 0, st)
            else if e.used == 0 then e.octets == [] && r == Run(More, 0, st)
            else e.used <= |s| && r == Past(e.used, Decode(need, st.(text := st.text + e.octets), s[e.used..]))
  {
    hide Expand, From, Decode;
    TextRun(s);
    DecodeStep(need, st, s);
    NothingUsed(s[..LessAt(s)], LessAt(s) < |s|);
    assert st.(place := InText) == st;
  }

  /** The first run of text stands for what its part in s stands for, and then what is left of it. */
  lemma RunInTwo(s: seq<Octet>, t: seq<Octet>)
    requires LESS !in s && Expand(s, false).Expanded?
    ensures var e := Expand(s, false);
            FirstRun(s + t) == Then(e.octets, e.used, FirstRun(s[e.used..] + t))
  {
    hide Expand, LessAt;
    var (e, m) := (Expand(s, false), LessAt(t));
    var x := s[e.used..] + t;
    assert forall c <- s[e.used..] :: c in s;
    LessAtIs(s, t);
    LessAtIs(s[e.used..], t);
    assert (s + t)[..|s| + m] == s + t[..m] && x[..|s| - e.used + m] == s[e.used..] + t[..m];
    ChunkThenRest(s, t[..m], |s| + m < |s + t|);
  }

  /** One run of text, converted at once or in two goes. */
  lemma TextContinued(need: seq<Octet>, st: Reading, s: seq<Octet>, t: seq<Octet>)
    requires st.place.InText? && st.inside && s != [] && LESS !in s && Expand(s, false).Expanded?
    ensures var e := Expand(s, false);
            Same(Decode(need, st, s + t),
                 Past(e.used, Decode(need, st.(text := st.text + e.octets), s[e.used..] + t)))
  {
    hide Expand, Decode, LessAt, Same;
    var e := Expand(s, false);
    var (x, on) := (s[e.used..] + t, st.(text := st.text + e.octets));
    NothingUsed(s, false);
    SameAsItself(Decode(need, st, s + t));
    if e.used == 0 {
      assert s[0..] == s && st.text + [] == st.text;
    } else {
      assert s[0] in s;
      RunInTwo(s, t);
      TextStep(need, st, s + t);
      assert (s + t)[e.used..] == x;
      RunContinued(need, st, e, s + t, x);
    }
  }

  lemma SameAsItself(r: Run)
    ensures Same(r, r)
  {
  }

  lemma RunContinued(need: seq<Octet>, st: Reading, e: Expansion, whole: seq<Octet>, x: seq<Octet>)
    requires st.place.InText? && st.inside && whole != [] && whole[0] != LESS
    requires e.Expanded? && 0 < e.used <= |whole| && x == whole[e.used..]
    requires FirstRun(whole) == Then(e.octets, e.used, FirstRun(x))
    ensures Same(Decode(need, st, whole), Past(e.used, Decode(need, st.(text := st.text + e.octets), x)))
  {
    hide Decode, FirstRun, Same;
    var (f, on) := (FirstRun(x), st.(text := st.text + e.octets));
    var one := Past(e.used, Decode(need, on, x));
    SameAsItself(one);
    TextStep(need, st, whole);
    if x == [] || x[0] == LESS {
      NoRun(x);
      ThenNothing(e.octets, e.used);
    } else {
      TextStep(need, on, x);
      if f.Aborted? {
        BothCrash(Decode(need, st, whole), one);
      } else if f.used == 0 {
        ThenNothing(e.octets, e.used);
      } else {
        assert whole[e.used + f.used..] == x[f.used..];
        assert st.text + (e.octets + f.octets) == on.text + f.octets;
      }
    }
  }

  lemma NoRun(x: seq<Octet>)
    requires x == [] || x[0] == LESS
    ensures FirstRun(x) == Expanded([], 0)
  {
    ExpandEnds(x[..LessAt(x)], LessAt(x) < |x|);
  }

  lemma BothCrash(a: Run, b: Run)
    requires a.code.Crashed? && b.code.Crashed?
    ensures Same(a, b)
  {
  }

  lemma OutsideContinued(need: seq<Octet>, st: Reading, s: seq<Octet>, t: seq<Octet>)
    requires st.place.InText? && !st.inside && s != [] && LESS !in s
    ensures Decode(need, st, s + t) == Past(|s|, Decode(need, st, t))
  {
    hide Decode, LessAt, From;
    var m := LessAt(t);
    assert s[0] in s && st.(place := InText) == st;
    LessAtIs(s, t);
    TextRun(s + t);
    DecodeStep(need, st, s + t);
    assert (s + t)[|s| + m..] == t[m..];
    if t != [] && t[0] != LESS {
      TextRun(t);
      DecodeStep(need, st, t);
    } else {
      assert t[0..] == t;
    }
  }

  // ---------------------------------------------------------------- any input in two pieces

  lemma EmptyInput(need: seq<Octet>, st: Reading)
    ensures Decode(need, st, []) == Run(More, 0, st)
  {
  }

  /** For a complete token it does not matter whether the input ends with it. */
  lemma TakeComplete(need: seq<Octet>, st: Reading, kind: Kind, chunk: seq<Octet>, last: bool)
    requires chunk != [] && !kind.TextKind?
    ensures Take(need, st, kind, chunk, last) == Take(need, st, kind, chunk, false)
  {
  }

  lemma TakeWhole(need: seq<Octet>, st: Reading, kind: Kind, chunk: seq<Octet>)
    requires chunk != []
    ensures var t := Take(need, st, kind, chunk, false);
            if t.Goes? then t.used == |chunk| && t.state.place == st.place else !t.code.More?
  {
  }

  /** No input ends between a '<' that begins no tag and an ampersand. */
  predicate EndsInLessAmp(s: seq<Octet>) {
    |s| >= 2 && s[|s| - 2] == LESS && s[|s| - 1] == AMP
  }

  /** What a call makes of an input is the same if the input comes in two pieces, unless the first one ends in "<&". */
  lemma {:induction false} Split(need: seq<Octet>, st: Reading, s: seq<Octet>, t: seq<Octet>)
    requires Kept(st.place, s) && !EndsInLessAmp(s)
    ensures var r := Decode(need, st, s);
            && Same(Decode(need, st, s + t), Continued(need, r, s, t))
            && (r.code.More? ==> Kept(r.state.place, s[r.consumed..]))
    decreases |s|, 2
  {
    hide Decode, From, Take;
    var token := From(st.place, s, 0);
    if token.Wait? {
      NoTokenYet(need, st, s);
      assert s[0..] == s;
    } else {
      KeptAfter(st.place, s, 0);
      TokenKept(st.place, s, t, 0);
      DecodeStep(need, st, s);
      if token.size < |s| || token.kind.TagKind? {
        SplitAfterToken(need, st, s, t);
      } else if token.kind.CommentKind? {
        SplitInComment(need, st, s, t);
      } else {
        SplitInText(need, st, s, t);
      }
    }
  }

  lemma {:induction false} SplitAfterToken(need: seq<Octet>, st: Reading, s: seq<Octet>, t: seq<Octet>)
    requires Kept(st.place, s) && !EndsInLessAmp(s)
    requires From(st.place, s, 0).Cut? && From(st.place, s + t, 0) == From(st.place, s, 0)
    requires From(st.place, s, 0).size < |s| || !From(st.place, s, 0).kind.TextKind?
    ensures var r := Decode(need, st, s);
            && Same(Decode(need, st, s + t), Continued(need, r, s, t))
            && (r.code.More? ==> Kept(r.state.place, s[r.consumed..]))
    decreases |s|, 0
  {
    hide Decode, From, Take, Same, EndsInLessAmp;
    var token := From(st.place, s, 0);
    var (n, on, chunk) := (token.size, st.(place := token.place), s[..token.size]);
    KeptAfter(st.place, s, 0);
    DecodeStep(need, st, s);
    DecodeStep(need, st, s + t);
    assert (s + t)[..n] == chunk && (s + t)[n..] == s[n..] + t;
    if !token.kind.TextKind? {
      TakeComplete(need, on, token.kind, chunk, n == |s|);
      TakeComplete(need, on, token.kind, chunk, n == |s + t|);
    }
    TakeWhole(need, on, token.kind, chunk);
    var taken := Take(need, on, token.kind, chunk, false);
    if taken.Goes? {
      CleanRest(s, n);
      Split(need, taken.state, s[n..], t);
      SplitPast(need, n, Decode(need, taken.state, s[n..]), Decode(need, taken.state, s[n..] + t), s, t);
    } else {
      SameAsItself(Decode(need, st, s));
    }
  }

  lemma CleanRest(s: seq<Octet>, n: nat)
    requires n <= |s| && !EndsInLessAmp(s)
    ensures !EndsInLessAmp(s[n..])
  {
  }

  lemma SplitPast(need: seq<Octet>, n: nat, r: Run, whole: Run, s: seq<Octet>, t: seq<Octet>)
    requires n <= |s| && r.consumed <= |s[n..]| && Same(whole, Continued(need, r, s[n..], t))
    ensures Same(Past(n, whole), Continued(need, Past(n, r), s, t))
    ensures s[n..][r.consumed..] == s[Past(n, r).consumed..]
  {
    hide Decode;
  }

  lemma {:induction false} SplitInComment(need: seq<Octet>, st: Reading, s: seq<Octet>, t: seq<Octet>)
    requires Kept(st.place, s) && !EndsInLessAmp(s)
    requires From(st.place, s, 0).Cut? && From(st.place, s, 0).size == |s| && From(st.place, s, 0).kind.CommentKind?
    ensures var r := Decode(need, st, s);
            && Same(Decode(need, st, s + t), Continued(need, r, s, t))
            && (r.code.More? ==> Kept(r.state.place, s[r.consumed..]))
    decreases |s|, 1
  {
    hide Decode, From, Take;
    var on := st.(place := From(st.place, s, 0).place);
    KeptAfter(st.place, s, 0);
    CommentAtEnd(st.place, s, t, 0);
    if on.place.InText? {
      SplitAfterToken(need, st, s, t);
    } else {
      DecodeStep(need, st, s);
      TakesComment(need, on, s, true);
      EmptyInput(need, on);
      assert s[..|s|] == s && s[|s|..] == [] && [] + t == t;
      assert Continued(need, Decode(need, st, s), s, t) == Past(|s|, Decode(need, on, t));
      if t == [] {
        assert s + t == s;
      } else {
        CommentContinued(need, st, s, t);
      }
    }
  }

  lemma TakesComment(need: seq<Octet>, st: Reading, chunk: seq<Octet>, last: bool)
    requires chunk != []
    ensures Take(need, st, CommentKind, chunk, last) == Goes(st, |chunk|)
  {
  }

  /** The token that ends a comment, seen with the whole comment or with its rest. */
  lemma CommentTokens(s: seq<Octet>, t: seq<Octet>)
    requires s != [] && t != []
    ensures var (whole, rest) := (From(InComment, s + t, |s|), From(InComment, t, 0));
            if rest.Wait? then whole.Wait?
            else rest.kind.CommentKind? && whole == Cut(CommentKind, |s| + rest.size, rest.place)
  {
    assert (s + t)[|s|] == t[0];
    CommentShift(Turn(InComment, t[0]).place, s, t, 1);
  }

  /** A comment that is cut: either way it is passed over when it is complete. */
  lemma CommentContinued(need: seq<Octet>, st: Reading, s: seq<Octet>, t: seq<Octet>)
    requires s != [] && t != [] && From(st.place, s + t, 0) == From(InComment, s + t, |s|)
    ensures Same(Decode(need, st, s + t), Past(|s|, Decode(need, st.(place := InComment), t)))
  {
    hide Decode, Take, From;
    var on := st.(place := InComment);
    var (whole, rest) := (From(st.place, s + t, 0), From(InComment, t, 0));
    CommentTokens(s, t);
    if rest.Wait? {
      NoTokenYet(need, st, s + t);
      NoTokenYet(need, on, t);
    } else {
      DecodeStep(need, st, s + t);
      DecodeStep(need, on, t);
      TakesComment(need, st.(place := rest.place), (s + t)[..whole.size], whole.size == |s + t|);
      TakesComment(need, st.(place := rest.place), t[..rest.size], rest.size == |t|);
      assert (s + t)[whole.size..] == t[rest.size..];
    }
  }

  lemma SplitInText(need: seq<Octet>, st: Reading, s: seq<Octet>, t: seq<Octet>)
    requires Kept(st.place, s) && !EndsInLessAmp(s)
    requires From(st.place, s, 0).Cut? && From(st.place, s, 0).size == |s| && From(st.place, s, 0).kind.TextKind?
    ensures var r := Decode(need, st, s);
            && Same(Decode(need, st, s + t), Continued(need, r, s, t))
            && (r.code.More? ==> Kept(r.state.place, s[r.consumed..]))
  {
    hide Decode, From, Take, Expand;
    TextShape(st.place, s);
    if LoneLess(s) {
      LoneLessToken(st.place, s);
      SplitAtLoneLess(need, st, s, t);
    } else {
      assert LESS !in s;
      assert s[|s|..] == [] && [] + t == t;
      EmptyInput(need, st);
      if !st.inside {
        OutsideContinued(need, st, s, []);
        OutsideContinued(need, st, s, t);
        assert s + [] == s;
      } else {
        SplitInside(need, st, s, t);
      }
    }
  }

  /** A '<' that begins no tag, and the character after it, stand for themselves. */
  lemma SplitAtLoneLess(need: seq<Octet>, st: Reading, s: seq<Octet>, t: seq<Octet>)
    requires Kept(st.place, s) && !st.place.InComment? && LoneLess(s) && |s| == 2 && s[1] != AMP
    ensures var r := Decode(need, st, s);
            && Same(Decode(need, st, s + t), Continued(need, r, s, t))
            && (r.code.More? ==> Kept(r.state.place, s[r.consumed..]))
  {
    hide Decode, From;
    LoneLessToken(st.place, s);
    LoneLessToken(st.place, s + t);
    DecodeStep(need, st, s);
    DecodeStep(need, st, s + t);
    assert (s + t)[..2] == s[..2] == s && (s + t)[2..] == t && s[2..] == [] && [] + t == t;
    StandsForBoth(s, true);
    StandsForBoth(s, false);
    var on := st.(place := InText);
    EmptyInput(need, on);
    EmptyInput(need, on.(text := st.text + s));
  }

  lemma StandsForBoth(s: seq<Octet>, last: bool)
    requires |s| == 2 && AMP !in s
    ensures Expand(s, last) == Expanded(s, 2)
  {
    ExpandStep(s, last);
    ExpandStep(s[1..], last);
    assert s[0] in s && s[1] in s && s[1..][1..] == [];
    ExpandEnds([], last);
  }

  lemma SplitInside(need: seq<Octet>, st: Reading, s: seq<Octet>, t: seq<Octet>)
    requires st.place.InText? && st.inside && s != [] && LESS !in s
    ensures var r := Decode(need, st, s);
            && Same(Decode(need, st, s + t), Continued(need, r, s, t))
            && (r.code.More? ==> Kept(r.state.place, s[r.consumed..]))
  {
    hide Decode, From, Take, Expand, LessAt;
    var e := Expand(s, false);
    assert s[0] in s;
    LessAtIs(s, []);
    assert s + [] == s && LessAt([]) == 0 && s[..|s|] == s;
    TextStep(need, st, s);
    if e.Expanded? {
      TextContinued(need, st, s, t);
      var on := st.(text := st.text + e.octets);
      if e.used > 0 {
        StallsAgain(s);
        NothingMore(need, on, s[e.used..]);
      } else {
        assert s[0..] == s;
      }
    } else {
      LessAtIs(s, t);
      TextStep(need, st, s + t);
      var m := LessAt(t);
      assert (s + t)[..|s| + m] == s + t[..m];
      ChunkThenRest(s, t[..m], |s| + m < |s + t|);
    }
  }

  lemma NothingMore(need: seq<Octet>, st: Reading, x: seq<Octet>)
    requires st.place.InText? && st.inside && LESS !in x && Expand(x, false) == Expanded([], 0)
    ensures Decode(need, st, x) == Run(More, 0, st)
  {
    hide Decode, Expand, LessAt;
    if x == [] {
      EmptyInput(need, st);
    } else {
      assert x[0] in x;
      LessAtIs(x, []);
      assert x + [] == x && LessAt([]) == 0 && x[..|x|] == x;
      TextStep(need, st, x);
    }
  }

  /** Why the first piece must not end in "<&": in one piece the ampersand is part of the token that the '<' begins,
      and is copied; cut after it, it is looked at again with the text that follows. The string comes out the same
      exactly if the ampersand begins no reference. */
  lemma CutAfterLessAmp(need: seq<Octet>, st: Reading, x: seq<Octet>, rest: seq<Octet>)
    requires st.inside && st.place.InText? && LESS !in x && rest != [] && rest[0] == LESS
    requires Expand(x, true).Expanded?
    ensures var (r, tail) := (Decode(need, st, [LESS, AMP]), [AMP] + x);
            var (one, two) := (Then([AMP], 1, Expand(x, true)), Expand(tail, true));
            && r == Run(More, 1, st.(text := st.text + [LESS]))
            && Decode(need, st, [LESS] + tail + rest)
               == Past(|tail| + 1, Decode(need, st.(text := st.text + [LESS] + one.octets), rest))
            && Decode(need, r.state, tail + rest)
               == (if two.Aborted? then Run(Crashed, 0, r.state)
                   else Past(|tail|, Decode(need, r.state.(text := r.state.text + two.octets), rest)))
            && (two == one <==> Entity(tail).Stall? || Entity(tail) == Emit([AMP], 1))
  {
    hide Decode, From, Expand, Entity;
    var (tail, on) := ([AMP] + x, st.(text := st.text + [LESS]));
    assert tail[1..] == x;
    ReferenceMatters(tail);
    StallsAfterLess(need, st);
    LessAmpIsOne(need, st, x + rest);
    assert [LESS] + tail + rest == [LESS, AMP] + (x + rest);
    RunOfText(need, on, tail, rest);
    var all := st.(text := st.text + [LESS, AMP]);
    if x == [] {
      ExpandEnds([], true);
      assert x + rest == rest && all.text + [] == all.text;
    } else {
      RunOfText(need, all, x, rest);
    }
    assert st.text + [LESS] + ([AMP] + Expand(x, true).octets) == all.text + Expand(x, true).octets;
  }

  /** A whole run of text and what comes after it. */
  lemma RunOfText(need: seq<Octet>, st: Reading, x: seq<Octet>, rest: seq<Octet>)
    requires st.inside && st.place.InText? && x != [] && LESS !in x && rest != [] && rest[0] == LESS
    ensures var e := Expand(x, true);
            Decode(need, st, x + rest) == if e.Aborted? then Run(Crashed, 0, st)
                                          else Past(|x|, Decode(need, st.(text := st.text + e.octets), rest))
  {
    hide Decode, Expand, LessAt;
    assert x[0] in x;
    LessAtIs(x, rest);
    assert LessAt(rest) == 0;
    TextStep(need, st, x + rest);
    assert (x + rest)[..|x|] == x && (x + rest)[|x|..] == rest;
  }

  lemma StallsAfterLess(need: seq<Octet>, st: Reading)
    requires st.inside && st.place.InText?
    ensures Decode(need, st, [LESS, AMP]) == Run(More, 1, st.(text := st.text + [LESS]))
  {
    hide Decode, From, Expand;
    var (s, on) := ([LESS, AMP], st.(text := st.text + [LESS]));
    LoneLessToken(st.place, s);
    DecodeStep(need, st, s);
    AmpAlone(false);
    ExpandStep(s, false);
    assert s[1..] == [AMP] && s[..2] == s && [LESS] + [] == [LESS];
    NothingMore(need, on, [AMP]);
  }

  lemma AmpAlone(last: bool)
    ensures Expand([AMP], last) == if last then Expanded([AMP], 1) else Expanded([], 0)
  {
    ExpandEnds([], last);
    assert [AMP][1..] == [] && [AMP] + [] == [AMP];
  }

  lemma LessAmpIsOne(need: seq<Octet>, st: Reading, t: seq<Octet>)
    requires st.inside && st.place.InText? && t != []
    ensures Decode(need, st, [LESS, AMP] + t) == Past(2, Decode(need, st.(text := st.text + [LESS, AMP]), t))
  {
    hide Decode, From, Expand;
    var s := [LESS, AMP];
    LoneLessToken(st.place, s + t);
    DecodeStep(need, st, s + t);
    AmpAlone(true);
    ExpandStep(s, true);
    assert s[1..] == [AMP] && (s + t)[..2] == s && (s + t)[2..] == t && [LESS] + [AMP] == s;
  }

  // ---------------------------------------------------------------- any number of pieces

  /** A '<' that begins no tag and an ampersand stand side by side nowhere. */
  predicate NoLessAmp(s: seq<Octet>) {
    forall k | 0 < k < |s| :: !(s[k - 1] == LESS && s[k] == AMP)
  }

  lemma CleanPart(s: seq<Octet>, t: seq<Octet>)
    requires NoLessAmp(s + t)
    ensures !EndsInLessAmp(s)
  {
    assert forall k | 0 <= k < |s| :: (s + t)[k] == s[k];
    assert |s| >= 2 ==> !((s + t)[|s| - 1 - 1] == LESS && (s + t)[|s| - 1] == AMP);
  }

  /** The pieces of an input, what each call leaves over in front of the next piece; all that is consumed. */
  ghost function PieceByPiece(need: seq<Octet>, st: Reading, tail: seq<Octet>, pieces: seq<seq<Octet>>): Run
    requires pieces != []
    decreases |pieces|
  {
    var s := tail + pieces[0];
    var r := Decode(need, st, s);
    if !r.code.More? || |pieces| == 1 then r
    else Past(r.consumed, PieceByPiece(need, r.state, s[r.consumed..], pieces[1..]))
  }

  /** However an input is cut into pieces, the outcome is that of one call. */
  lemma {:induction false} PiecesAreOneCall(need: seq<Octet>, st: Reading, tail: seq<Octet>, pieces: seq<seq<Octet>>)
    requires pieces != [] && Kept(st.place, tail) && NoLessAmp(tail + Joined(pieces))
    ensures Same(PieceByPiece(need, st, tail, pieces), Decode(need, st, tail + Joined(pieces)))
    decreases |pieces|
  {
    hide Decode;
    var (s, t) := (tail + pieces[0], Joined(pieces[1..]));
    var whole := tail + Joined(pieces);
    assert whole == s + t;
    if |pieces| == 1 {
      assert s + t == s;
    } else {
      CleanPart(s, t);
      Split(need, st, s, t);
      var r := Decode(need, st, s);
      if r.code.More? {
        assert forall k | 0 <= k < |s[r.consumed..] + t| :: (s[r.consumed..] + t)[k] == whole[r.consumed + k];
        PiecesAreOneCall(need, r.state, s[r.consumed..], pieces[1..]);
      }
    }
  }

  /** The caller's loop: each piece is handed to the decoder behind what the call before has left over. */
  method DecodePieces(need: seq<Octet>, pieces: seq<seq<Octet>>)
      returns (code: Code, consumed: nat, reader: StringReader)
    requires pieces != [] && 0 !in need
    ensures var r := PieceByPiece(need, START, [], pieces);
            && code == r.code && consumed == r.consumed
            && (!code.Crashed? ==> reader.Valid() && reader.Abs() == r.state)
  {
    hide Decode;
    reader := new StringReader();
    consumed := 0;
    var tail, k := [], 0;
    assert pieces[0..] == pieces;
    while true
      invariant k < |pieces| && fresh(reader) && fresh(reader.text) && fresh(reader.text.buf) && reader.Valid()
      invariant PieceByPiece(need, START, [], pieces)
                == Past(consumed, PieceByPiece(need, reader.Abs(), tail, pieces[k..]))
      decreases |pieces| - k
    {
      var s, n := tail + pieces[k], 0;
      assert pieces[k..][0] == pieces[k] && pieces[k..][1..] == pieces[k + 1..];
      code, n := reader.DecodeXer(need, s);
      consumed := consumed + n;
      if code != More || k + 1 == |pieces| {
        return;
      }
      tail, k := s[n..], k + 1;
    }
  }
}
