/** `_sanitize_name`: turning any name into a DNS label (section 2.1 of RFC 1123, section 2.3.4 of RFC 1035). */
module SanitizeName {
  type Name = seq<char>

  predicate IsAlnum(c: char) {
    'a' <= c <= 'z' || '0' <= c <= '9'
  }

  predicate IsPlain(c: char) {
    IsAlnum(c) || c == '-'
  }

  ghost predicate AllPlain(s: Name) {
    forall i :: 0 <= i < |s| ==> IsPlain(s[i])
  }

  ghost predicate DoubleAt(s: Name, i: int) {
    0 <= i < |s| - 1 && s[i] == '-' && s[i + 1] == '-'
  }

  ghost predicate NoDoubleHyphen(s: Name) {
    forall i :: !DoubleAt(s, i)
  }

  ghost predicate IsLabel(s: Name) {
    && 1 <= |s| <= 63 && AllPlain(s) && NoDoubleHyphen(s)
    && s[0] != '-' && s[|s| - 1] != '-'
  }

  /** Each maximal run of characters a label may not have becomes one hyphen; `inRun` says that a run is under way. */
  function ReplaceRuns(s: Name, inRun: bool): Name {
    if s == [] then []
    else if IsPlain(s[0]) then [s[0]] + ReplaceRuns(s[1..], false)
    else (if inRun then [] else ['-']) + ReplaceRuns(s[1..], true)
  }

  /** Each maximal run of hyphens becomes one hyphen; `inRun` says that a run is under way. */
  function CollapseHyphens(s: Name, inRun: bool): Name {
    if s == [] then []
    else if s[0] != '-' then [s[0]] + CollapseHyphens(s[1..], false)
    else (if inRun then [] else ['-']) + CollapseHyphens(s[1..], true)
  }

  function StripLeft(s: Name): Name {
    if s != [] && s[0] == '-' then StripLeft(s[1..]) else s
  }

  function StripRight(s: Name): Name {
    if s != [] && s[|s| - 1] == '-' then StripRight(s[..|s| - 1]) else s
  }

  const FALLBACK: Name := "workflow"

  /** The body after `name.lower()`. */
  function Clean(s: Name): Name {
    var t := StripRight(StripLeft(CollapseHyphens(ReplaceRuns(s, false), false)));
    var u := if t == [] then FALLBACK else t;
    StripRight(if |u| > 63 then u[..63] else u)
  }

  function Sanitize(name: Name, lower: Name -> Name): Name {
    Clean(lower(name))
  }

  // ---------------------------------------------------------------- each pass

  lemma {:induction false} ReplaceRunsPlain(s: Name, inRun: bool)
    ensures AllPlain(ReplaceRuns(s, inRun))
  {
    if s != [] {
      ReplaceRunsPlain(s[1..], !IsPlain(s[0]));
    } else {
    }
  }

  lemma {:induction false} ReplaceRunsKeeps(s: Name, inRun: bool)
    requires AllPlain(s)
    ensures ReplaceRuns(s, inRun) == s
  {
    if s != [] {
      ReplaceRunsKeeps(s[1..], false);
    } else {
    }
  }

  lemma NoDoubleCons(head: Name, t: Name)
    requires |head| <= 1 && NoDoubleHyphen(t) && (head != [] && head[0] == '-' && t != [] ==> t[0] != '-')
    ensures NoDoubleHyphen(head + t)
  {
    forall i ensures !DoubleAt(head + t, i) {
      assert !DoubleAt(t, i - |head|);
    }
  }

  lemma {:induction false} CollapseShape(s: Name, inRun: bool)
    requires AllPlain(s)
    ensures AllPlain(CollapseHyphens(s, inRun)) && NoDoubleHyphen(CollapseHyphens(s, inRun))
    ensures inRun && CollapseHyphens(s, inRun) != [] ==> CollapseHyphens(s, inRun)[0] != '-'
  {
    if s != [] {
      CollapseShape(s[1..], s[0] == '-');
      NoDoubleCons(if s[0] != '-' || !inRun then [s[0]] else [], CollapseHyphens(s[1..], s[0] == '-'));
    }
  }

  lemma {:induction false} CollapseKeeps(s: Name, inRun: bool)
    requires NoDoubleHyphen(s) && (inRun && s != [] ==> s[0] != '-')
    ensures CollapseHyphens(s, inRun) == s
  {
    if s != [] {
      var r := s[1..];
      forall i ensures !DoubleAt(r, i) {
        assert !DoubleAt(s, i + 1);
      }
      assert !DoubleAt(s, 0);
      CollapseKeeps(r, s[0] == '-');
    }
  }

  ghost predicate Tidy(s: Name) {
    AllPlain(s) && NoDoubleHyphen(s)
  }

  lemma TidyPart(s: Name, i: nat, j: nat)
    requires Tidy(s) && i <= j <= |s|
    ensures Tidy(s[i..j])
  {
    var t := s[i..j];
    forall k ensures !DoubleAt(t, k) {
      assert !DoubleAt(s, i + k);
    }
  }

  lemma {:induction false} StripLeftShape(s: Name)
    requires Tidy(s)
    ensures Tidy(StripLeft(s)) && (StripLeft(s) != [] ==> StripLeft(s)[0] != '-')
  {
    if s != [] && s[0] == '-' {
      TidyPart(s, 1, |s|);
      assert s[1..] == s[1..|s|];
      StripLeftShape(s[1..]);
    }
  }

  lemma {:induction false} StripRightShape(s: Name)
    requires Tidy(s)
    ensures Tidy(StripRight(s)) && StripRight(s) <= s
    ensures StripRight(s) != [] ==> StripRight(s)[|StripRight(s)| - 1] != '-'
    ensures s != [] && s[0] != '-' ==> StripRight(s) != []
  {
    if s != [] && s[|s| - 1] == '-' {
      TidyPart(s, 0, |s| - 1);
      assert s[..|s| - 1] == s[0..|s| - 1];
      StripRightShape(s[..|s| - 1]);
    }
  }

  // ---------------------------------------------------------------- the whole

  /** Whatever the input, the result is a label. */
  lemma CleanIsLabel(s: Name)
    ensures IsLabel(Clean(s))
  {
    ReplaceRunsPlain(s, false);
    CollapseShape(ReplaceRuns(s, false), false);
    var c := CollapseHyphens(ReplaceRuns(s, false), false);
    StripLeftShape(c);
    StripRightShape(StripLeft(c));
    var t := StripRight(StripLeft(c));
    var u := if t == [] then FALLBACK else t;
    var v := if |u| > 63 then u[..63] else u;
    if |u| > 63 {
      TidyPart(u, 0, 63);
      assert u[..63] == u[0..63];
    }
    StripRightShape(v);
  }

  /** A label is left as it is. */
  lemma CleanKeepsLabel(s: Name)
    requires IsLabel(s)
    ensures Clean(s) == s
  {
    ReplaceRunsKeeps(s, false);
    CollapseKeeps(s, false);
  }

  /** Sanitizing twice is sanitizing once, for any lower-casing that leaves labels alone. */
  lemma SanitizeIdempotent(name: Name, lower: Name -> Name)
    requires forall s :: IsLabel(s) ==> lower(s) == s
    ensures IsLabel(Sanitize(name, lower))
    ensures Sanitize(Sanitize(name, lower), lower) == Sanitize(name, lower)
  {
    CleanIsLabel(lower(name));
    CleanKeepsLabel(Clean(lower(name)));
  }

  // ---------------------------------------------------------------- what the result spells

  /**
   The letters and digits of `s` in order, with one hyphen between two of them where something else
   stood in between.  `started`: some came before; `gap`: something else came since.
   */
  ghost function Spell(s: Name, started: bool, gap: bool): Name {
    if s == [] then []
    else if IsAlnum(s[0]) then (if started && gap then ['-'] else []) + [s[0]] + Spell(s[1..], true, false)
    else Spell(s[1..], started, true)
  }

  ghost function LettersOf(s: Name): Name {
    if s == [] then []
    else (if 'a' <= s[0] <= 'z' || '0' <= s[0] <= '9' then [s[0]] else []) + LettersOf(s[1..])
  }

  /** The spelling has the same letters and digits as the text, in the same order. */
  lemma {:induction false} SpellKeepsLetters(s: Name, started: bool, gap: bool)
    ensures LettersOf(Spell(s, started, gap)) == LettersOf(s)
  {
    if s != [] {
      SpellKeepsLetters(s[1..], started || IsAlnum(s[0]), !IsAlnum(s[0]));
      if IsAlnum(s[0]) {
        var rest := [s[0]] + Spell(s[1..], true, false);
        assert rest[1..] == Spell(s[1..], true, false);
        if started && gap {
          var t := ['-'] + rest;
          assert Spell(s, started, gap) == t && t[1..] == rest;
        }
      } else {
        assert started || IsAlnum(s[0]) == started;
      }
    }
  }

  /** Both substitutions together: each run of anything but letters and digits becomes one hyphen. */
  ghost function Squeeze(s: Name, inRun: bool): Name {
    if s == [] then []
    else if IsAlnum(s[0]) then [s[0]] + Squeeze(s[1..], false)
    else (if inRun then [] else ['-']) + Squeeze(s[1..], true)
  }

  lemma {:induction false} PassesSqueeze(s: Name, replaced: bool, inRun: bool)
    requires replaced ==> inRun
    ensures CollapseHyphens(ReplaceRuns(s, replaced), inRun) == Squeeze(s, inRun)
  {
    if s != [] {
      var rest := ReplaceRuns(s[1..], !IsPlain(s[0]));
      PassesSqueeze(s[1..], !IsPlain(s[0]), !IsAlnum(s[0]));
      if IsPlain(s[0]) {
        assert ReplaceRuns(s, replaced) == [s[0]] + rest && ([s[0]] + rest)[1..] == rest;
      } else if replaced {
        assert [] + rest == rest && ReplaceRuns(s, replaced) == rest;
        assert [] + Squeeze(s[1..], true) == Squeeze(s[1..], true);
      } else {
        assert ReplaceRuns(s, replaced) == ['-'] + rest && (['-'] + rest)[1..] == rest;
      }
    }
  }

  /** After a letter or digit, stripping the right end leaves the spelling. */
  lemma {:induction false} RightIsSpelled(p: Name, s: Name, gap: bool)
    requires p != [] && IsAlnum(p[|p| - 1])
    ensures StripRight(p + (if gap then ['-'] else []) + Squeeze(s, gap)) == p + Spell(s, true, gap)
    decreases |s|
  {
    var dash := if gap then ['-'] else [];
    if s == [] {
      EndIsStripped(p, gap);
      assert p + dash + [] == p + dash && p + [] == p;
    } else if IsAlnum(s[0]) {
      RightIsSpelled(p + dash + [s[0]], s[1..], false);
      JoinFour(p, dash, [s[0]], Squeeze(s[1..], false));
      JoinFour(p, dash, [s[0]], Spell(s[1..], true, false));
      assert p + dash + [s[0]] + [] == p + dash + [s[0]];
    } else {
      RightIsSpelled(p, s[1..], true);
      JoinDash(p, gap, Squeeze(s[1..], true));
    }
  }

  lemma EndIsStripped(p: Name, gap: bool)
    requires p != [] && p[|p| - 1] != '-'
    ensures StripRight(p + (if gap then ['-'] else [])) == p
  {
    if gap {
      var q := p + ['-'];
      assert q[|q| - 1] == '-' && q[..|q| - 1] == p;
    } else {
      assert p + [] == p;
    }
  }

  lemma JoinFour(a: Name, b: Name, c: Name, d: Name)
    ensures a + b + c + d == a + b + (c + d) == a + (b + c + d)
  {
  }

  lemma JoinDash(p: Name, gap: bool, rest: Name)
    ensures p + (if gap then ['-'] else []) + ((if gap then [] else ['-']) + rest) == p + ['-'] + rest
  {
  }

  lemma {:induction false} StripsAreSpelled(s: Name, inRun: bool)
    ensures StripRight(StripLeft(Squeeze(s, inRun))) == Spell(s, false, inRun)
  {
    if s != [] {
      if IsAlnum(s[0]) {
        RightIsSpelled([s[0]], s[1..], false);
        assert [s[0]] + [] + Squeeze(s[1..], false) == Squeeze(s, inRun);
      } else {
        StripsAreSpelled(s[1..], true);
        var rest := Squeeze(s[1..], true);
        if inRun {
          assert [] + rest == rest;
        } else {
          assert Squeeze(s, inRun) == ['-'] + rest && (['-'] + rest)[1..] == rest;
        }
      }
    }
  }

  /**
   The result is the spelling, or "workflow" when there is nothing to spell, cut after 63 characters and
   without the hyphen at which the cut may fall.
   */
  lemma CleanSpells(s: Name)
    ensures var t := if Spell(s, false, false) == [] then "workflow" else Spell(s, false, false);
      Clean(s) == if |t| <= 63 then t else if t[62] == '-' then t[..62] else t[..63]
    ensures LettersOf(Spell(s, false, false)) == LettersOf(s)
  {
    PassesSqueeze(s, false, false);
    StripsAreSpelled(s, false);
    SpellKeepsLetters(s, false, false);
    CleanIsLabel(s);
    ReplaceRunsPlain(s, false);
    CollapseShape(ReplaceRuns(s, false), false);
    var c := CollapseHyphens(ReplaceRuns(s, false), false);
    StripLeftShape(c);
    StripRightShape(StripLeft(c));
    assert StripRight(StripLeft(c)) == Spell(s, false, false);
    CutIsStripped(if Spell(s, false, false) == [] then "workflow" else Spell(s, false, false));
  }

  lemma CutIsStripped(t: Name)
    requires Tidy(t) && t != [] && t[|t| - 1] != '-'
    ensures StripRight(if |t| > 63 then t[..63] else t)
         == if |t| <= 63 then t else if t[62] == '-' then t[..62] else t[..63]
  {
    if |t| > 63 {
      assert t[..63][..62] == t[..62];
      assert !DoubleAt(t, 61);
    }
  }
}
