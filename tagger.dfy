/**
 * The filename tagger of the renderer (`detectMetadata`): a tempo from
 * `/(\d{2,3})\s?bpm/i`, a musical key from `/([A-G][#b]?)\s?(min|maj|m)/i`
 * upper-cased, and a category from a first-hit chain of substrings.
 *
 * Each regular expression is modelled as the search the JavaScript engine
 * performs: start positions from left to right, and at each start the
 * alternatives in backtracking order (greedy quantifiers first, alternation
 * left to right). Each search is then proved against a declarative grammar
 * of the matched text. Under `/i` without the `u` flag JavaScript never
 * folds a non-ASCII character onto an ASCII one, so ASCII case folding is
 * exact for these patterns.
 */
module Tagger {
  import opened Wrappers
  import opened Chars

  /** `s[j..j + |w|]` spells the lower-case word `w`, ignoring ASCII case. */
  predicate WordAt(s: string, j: nat, w: string)
  {
    j + |w| <= |s| && Lower(s[j..j + |w|]) == w
  }

  predicate DigitsAt(s: string, i: nat, n: nat)
  {
    i + n <= |s| && forall k :: i <= k < i + n ==> IsDigit(s[k])
  }

  predicate AllDigits(d: string)
  {
    forall k :: 0 <= k < |d| ==> IsDigit(d[k])
  }

  function Pow10(n: nat): (p: nat)
    ensures p >= 1
  {
    if n == 0 then 1 else 10 * Pow10(n - 1)
  }

  /** `parseInt` of a string of decimal digits. */
  function Decimal(d: string): (v: nat)
    requires AllDigits(d)
    ensures v < Pow10(|d|)
  {
    if d == [] then 0
    else
      var h := Decimal(d[..|d| - 1]);
      assert h * 10 <= (Pow10(|d| - 1) - 1) * 10;
      h * 10 + DigitValue(d[|d| - 1])
  }

  // ------------------------------------------------------------------
  // Tempo: /(\d{2,3})\s?bpm/i
  // ------------------------------------------------------------------

  /** `\s?bpm` at `j`: one whitespace character is tried before none. */
  predicate BpmSuffixAt(s: string, j: nat)
  {
    (j < |s| && IsSpace(s[j]) && WordAt(s, j + 1, "bpm")) || WordAt(s, j, "bpm")
  }

  /** The length of the capture group when the pattern matches at `i`: three digits are tried before two. */
  function BpmAt(s: string, i: nat): Option<nat>
  {
    if DigitsAt(s, i, 3) && BpmSuffixAt(s, i + 3) then Some(3)
    else if DigitsAt(s, i, 2) && BpmSuffixAt(s, i + 2) then Some(2)
    else None
  }

  /** The leftmost start at or after `from` where the tempo pattern matches. */
  function FindBpm(s: string, from: nat): (r: Option<nat>)
    requires from <= |s|
    ensures r.Some? ==> from <= r.value <= |s| && BpmAt(s, r.value).Some?
    ensures r.Some? ==> forall j :: from <= j < r.value ==> BpmAt(s, j).None?
    ensures r.None? ==> forall j :: from <= j <= |s| ==> BpmAt(s, j).None?
    decreases |s| - from
  {
    if BpmAt(s, from).Some? then Some(from)
    else if from == |s| then None
    else FindBpm(s, from + 1)
  }

  /** `bpmMatch ? parseInt(bpmMatch[1]) : null`. */
  function Bpm(name: string): (r: Option<nat>)
    ensures r.Some? ==> r.value <= 999
  {
    match FindBpm(name, 0)
    case None => None
    case Some(i) =>
      var n := BpmAt(name, i).value;
      assert AllDigits(name[i..i + n]);
      Some(Decimal(name[i..i + n]))
  }

  /** The grammar of a tempo match: `n` digits (two or three), an optional whitespace character, then "bpm" in any case. */
  ghost predicate IsBpmText(t: string, n: int)
  {
    && (n == 2 || n == 3) && n <= |t|
    && AllDigits(t[..n])
    && (Lower(t[n..]) == "bpm" || (n < |t| && IsSpace(t[n]) && Lower(t[n + 1..]) == "bpm"))
  }

  ghost predicate BpmOccurs(s: string, i: int, e: int, n: int)
  {
    0 <= i <= e <= |s| && IsBpmText(s[i..e], n)
  }

  lemma BpmAtSound(s: string, i: nat)
    requires BpmAt(s, i).Some?
    ensures exists e :: BpmOccurs(s, i, e, BpmAt(s, i).value)
  {
    var n := BpmAt(s, i).value;
    var j := i + n;
    assert forall k :: 0 <= k < n ==> s[i..j][k] == s[i + k];
    assert AllDigits(s[i..j]);
    if j < |s| && IsSpace(s[j]) && WordAt(s, j + 1, "bpm") {
      var t := s[i..j + 4];
      assert t[..n] == s[i..j] && t[n] == s[j];
      assert t[n + 1..] == s[j + 1..j + 4];
      assert BpmOccurs(s, i, j + 4, n);
    } else {
      var t := s[i..j + 3];
      assert t[..n] == s[i..j];
      assert t[n..] == s[j..j + 3];
      assert BpmOccurs(s, i, j + 3, n);
    }
  }

  lemma BpmAtComplete(s: string, i: nat, e: int, n: int)
    requires BpmOccurs(s, i, e, n)
    ensures BpmAt(s, i) == Some(n)
  {
    var t := s[i..e];
    forall k | i <= k < i + n
      ensures IsDigit(s[k])
    {
      assert t[..n][k - i] == s[k];
    }
    assert DigitsAt(s, i, n);
    if Lower(t[n..]) == "bpm" {
      assert t[n..] == s[i + n..e];
      assert WordAt(s, i + n, "bpm");
      assert ToLower(s[i + n]) == 'b';
    } else {
      assert t[n + 1..] == s[i + n + 1..e];
      assert WordAt(s, i + n + 1, "bpm");
      assert !IsDigit(s[i + n]);
    }
    if n == 2 {
      assert !IsDigit(s[i + 2]);
    }
  }

  /**
   * The tempo is null exactly when no tempo text occurs in the name;
   * otherwise it is the value of the digits of the leftmost occurrence,
   * and at that start the digit count is determined.
   */
  lemma {:induction false} BpmIsLeftmostMatch(s: string)
    ensures Bpm(s).None? <==> forall i, e, n :: !BpmOccurs(s, i, e, n)
    ensures Bpm(s).Some? ==>
      exists i, e, n :: && BpmOccurs(s, i, e, n)
                        && Bpm(s).value == Decimal(s[i..e][..n])
                        && forall i', e', n' :: BpmOccurs(s, i', e', n') ==> i <= i' && (i' == i ==> n' == n)
  {
    BpmOccurrencesFound(s);
    match FindBpm(s, 0)
    case None =>
    case Some(i) =>
      BpmLeftmostWitness(s, i);
  }

  lemma BpmOccurrencesFound(s: string)
    ensures forall i, e, n :: BpmOccurs(s, i, e, n) ==> BpmAt(s, i) == Some(n)
  {
    forall i, e, n | BpmOccurs(s, i, e, n)
      ensures BpmAt(s, i) == Some(n)
    {
      BpmAtComplete(s, i, e, n);
    }
  }

  /** The start the search returns carries an occurrence, and no occurrence starts earlier or has another digit count there. */
  lemma BpmLeftmostWitness(s: string, i: nat)
    requires FindBpm(s, 0) == Some(i)
    ensures exists e, n :: && BpmOccurs(s, i, e, n)
                           && Bpm(s).value == Decimal(s[i..e][..n])
                           && forall i', e', n' :: BpmOccurs(s, i', e', n') ==> i <= i' && (i' == i ==> n' == n)
  {
    BpmOccurrencesFound(s);
    BpmAtSound(s, i);
    var n := BpmAt(s, i).value;
    var e :| BpmOccurs(s, i, e, n);
    assert s[i..e][..n] == s[i..i + n];
  }

  /**
   * A tempo text written after a prefix without digits is the one found,
   * whatever follows it.
   */
  lemma BpmAfterDigitFreePrefix(p: string, t: string, q: string, n: int)
    requires forall c :: c in p ==> !IsDigit(c)
    requires IsBpmText(t, n)
    ensures Bpm(p + t + q) == Some(Decimal(t[..n]))
  {
    var s := p + t + q;
    var i := |p|;
    SliceOfConcat(p, t, q, |t|);
    assert forall k :: 0 <= k < i ==> s[k] == p[k];
    BpmAfterNonDigits(s, i, i + |t|, n);
    SliceOfConcat(p, t, q, n);
  }

  lemma SliceOfConcat(p: string, t: string, q: string, n: nat)
    requires n <= |t|
    ensures (p + t + q)[|p|..|p| + n] == t[..n]
  {
  }

  /** The grammar accepts two or three digits, an optional whitespace character and "bpm" in any case. */
  lemma BpmTextOf(d: string, w: string, m: string)
    requires 2 <= |d| <= 3 && AllDigits(d)
    requires w == [] || (|w| == 1 && IsSpace(w[0]))
    requires Lower(m) == "bpm"
    ensures IsBpmText(d + w + m, |d|) && (d + w + m)[..|d|] == d
  {
    var t := d + w + m;
    assert t[..|d|] == d;
    if w == [] {
      assert t[|d|..] == m;
    } else {
      assert t[|d|] == w[0];
      assert t[|d| + 1..] == m;
    }
  }

  /** An occurrence preceded only by non-digits is the leftmost match. */
  lemma BpmAfterNonDigits(s: string, i: nat, e: int, n: int)
    requires BpmOccurs(s, i, e, n)
    requires forall k :: 0 <= k < i ==> !IsDigit(s[k])
    ensures 0 <= n && i + n <= |s| && AllDigits(s[i..i + n])
    ensures Bpm(s) == Some(Decimal(s[i..i + n]))
  {
    forall j | 0 <= j < i
      ensures BpmAt(s, j).None?
    {
      NoBpmAtNonDigit(s, j);
    }
    BpmOfFirstOccurrence(s, i, e, n);
  }

  lemma NoBpmAtNonDigit(s: string, j: nat)
    requires j < |s| && !IsDigit(s[j])
    ensures BpmAt(s, j).None?
  {
    assert !DigitsAt(s, j, 2) && !DigitsAt(s, j, 3);
  }

  lemma BpmOfFirstOccurrence(s: string, i: nat, e: int, n: int)
    requires BpmOccurs(s, i, e, n)
    requires forall j :: 0 <= j < i ==> BpmAt(s, j).None?
    ensures 0 <= n && i + n <= |s| && AllDigits(s[i..i + n])
    ensures Bpm(s) == Some(Decimal(s[i..i + n]))
  {
    BpmAtComplete(s, i, e, n);
    FindBpmFrom(s, 0, i);
    assert s[i..e][..n] == s[i..i + n];
  }

  /** The search returns the first start that matches. */
  lemma {:induction false} FindBpmFrom(s: string, from: nat, i: nat)
    requires from <= i <= |s| && BpmAt(s, i).Some?
    requires forall j :: from <= j < i ==> BpmAt(s, j).None?
    ensures FindBpm(s, from) == Some(i)
    decreases i - from
  {
    if from < i {
      FindBpmFrom(s, from + 1, i);
    }
  }

  // ------------------------------------------------------------------
  // Key: /([A-G][#b]?)\s?(min|maj|m)/i
  // ------------------------------------------------------------------

  predicate IsNoteLetter(c: char) { 'A' <= c <= 'G' || 'a' <= c <= 'g' }

  /** `[#b]` under `/i`. */
  predicate IsAccidental(c: char) { c == '#' || c == 'b' || c == 'B' }

  /** `(min|maj|m)` at `j`, alternatives left to right; the end of the match. */
  function ModeAt(s: string, j: nat): Option<nat>
  {
    if WordAt(s, j, "min") then Some(j + 3)
    else if WordAt(s, j, "maj") then Some(j + 3)
    else if WordAt(s, j, "m") then Some(j + 1)
    else None
  }

  /** `\s?(min|maj|m)` at `j`: one whitespace character is tried before none. */
  function SpacedModeAt(s: string, j: nat): Option<nat>
  {
    var spaced := if j < |s| && IsSpace(s[j]) then ModeAt(s, j + 1) else None;
    if spaced.Some? then spaced else ModeAt(s, j)
  }

  /** The end of the key match starting at `i`: an accidental is tried before none. */
  function KeyAt(s: string, i: nat): Option<nat>
  {
    if i < |s| && IsNoteLetter(s[i]) then
      var sharp := if i + 1 < |s| && IsAccidental(s[i + 1]) then SpacedModeAt(s, i + 2) else None;
      if sharp.Some? then sharp else SpacedModeAt(s, i + 1)
    else None
  }

  /** The leftmost start at or after `from` where the key pattern matches. */
  function FindKey(s: string, from: nat): (r: Option<nat>)
    requires from <= |s|
    ensures r.Some? ==> from <= r.value <= |s| && KeyAt(s, r.value).Some?
    ensures r.Some? ==> forall j :: from <= j < r.value ==> KeyAt(s, j).None?
    ensures r.None? ==> forall j :: from <= j <= |s| ==> KeyAt(s, j).None?
    decreases |s| - from
  {
    if KeyAt(s, from).Some? then Some(from)
    else if from == |s| then None
    else FindKey(s, from + 1)
  }

  /** The grammar of a mode token: "min", "maj" or "m" in any case. */
  ghost predicate IsModeWord(u: string)
  {
    Lower(u) == "min" || Lower(u) == "maj" || Lower(u) == "m"
  }

  ghost predicate IsSpacedMode(u: string)
  {
    IsModeWord(u) || (u != [] && IsSpace(u[0]) && IsModeWord(u[1..]))
  }

  /** The grammar of a key match: a note letter, an optional accidental, an optional whitespace character, a mode token. */
  ghost predicate IsKeyText(t: string)
  {
    && |t| >= 2 && IsNoteLetter(t[0])
    && (IsSpacedMode(t[1..]) || (IsAccidental(t[1]) && IsSpacedMode(t[2..])))
  }

  ghost predicate KeyOccurs(s: string, i: int, e: int)
  {
    0 <= i <= e <= |s| && IsKeyText(s[i..e])
  }

  lemma ModeWordStart(u: string)
    requires IsModeWord(u)
    ensures u != [] && (u[0] == 'm' || u[0] == 'M')
  {
    assert Lower(u)[0] == 'm';
  }

  lemma ModeAtSpec(s: string, j: nat)
    ensures ModeAt(s, j).Some? ==> j <= ModeAt(s, j).value <= |s| && IsModeWord(s[j..ModeAt(s, j).value])
    ensures forall e :: j <= e <= |s| && IsModeWord(s[j..e]) ==> ModeAt(s, j).Some? && e <= ModeAt(s, j).value
  {
    forall e | j <= e <= |s| && IsModeWord(s[j..e])
      ensures ModeAt(s, j).Some? && e <= ModeAt(s, j).value
    {
      var u := s[j..e];
      if Lower(u) == "m" {
        assert WordAt(s, j, "m");
      } else if Lower(u) == "min" {
        assert WordAt(s, j, "min");
      } else {
        assert WordAt(s, j, "maj");
      }
    }
  }

  lemma SpacedModeAtSpec(s: string, j: nat)
    ensures SpacedModeAt(s, j).Some? ==> j <= SpacedModeAt(s, j).value <= |s| && IsSpacedMode(s[j..SpacedModeAt(s, j).value])
    ensures forall e :: j <= e <= |s| && IsSpacedMode(s[j..e]) ==> SpacedModeAt(s, j).Some? && e <= SpacedModeAt(s, j).value
  {
    ModeAtSpec(s, j);
    ModeAtSpec(s, j + 1);
    var r := SpacedModeAt(s, j);
    if j < |s| && IsSpace(s[j]) && ModeAt(s, j + 1).Some? {
      var e := ModeAt(s, j + 1).value;
      assert s[j..e][1..] == s[j + 1..e];
    }
    forall e | j <= e <= |s| && IsSpacedMode(s[j..e])
      ensures SpacedModeAt(s, j).Some? && e <= SpacedModeAt(s, j).value
    {
      var u := s[j..e];
      if IsModeWord(u) {
        ModeWordStart(u);
        assert !IsSpace(s[j]);
      } else {
        assert u[1..] == s[j + 1..e];
      }
    }
  }

  lemma KeyAtSpec(s: string, i: nat)
    ensures KeyAt(s, i).Some? ==> KeyOccurs(s, i, KeyAt(s, i).value)
    ensures forall e :: KeyOccurs(s, i, e) ==> KeyAt(s, i).Some? && e <= KeyAt(s, i).value
  {
    SpacedModeAtSpec(s, i + 1);
    SpacedModeAtSpec(s, i + 2);
    if KeyAt(s, i).Some? {
      var e := KeyAt(s, i).value;
      if i + 1 < |s| && IsAccidental(s[i + 1]) && SpacedModeAt(s, i + 2).Some? {
        assert s[i..e][2..] == s[i + 2..e];
      } else {
        assert s[i..e][1..] == s[i + 1..e];
      }
    }
    forall e | KeyOccurs(s, i, e)
      ensures KeyAt(s, i).Some? && e <= KeyAt(s, i).value
    {
      var t := s[i..e];
      assert t[0] == s[i];
      if IsSpacedMode(t[1..]) {
        assert t[1..] == s[i + 1..e];
        var u := t[1..];
        if IsModeWord(u) {
          ModeWordStart(u);
        } else {
          assert u[0] == s[i + 1];
        }
        assert !IsAccidental(s[i + 1]);
      } else {
        assert t[2..] == s[i + 2..e];
        assert t[1] == s[i + 1];
      }
    }
  }

  /** `keyMatch ? keyMatch[0].toUpperCase() : null`: a key found is at least a note letter, upper-cased, and a mode. */
  function Key(name: string): (r: Option<string>)
    ensures r.Some? ==> |r.value| >= 2 && 'A' <= r.value[0] <= 'G'
  {
    match FindKey(name, 0)
    case None => None
    case Some(i) =>
      KeyAtSpec(name, i);
      Some(Upper(name[i..KeyAt(name, i).value]))
  }

  /**
   * The key is null exactly when no key text occurs in the name; otherwise
   * it is the upper-cased leftmost occurrence, and the longest one at that
   * start (so "min" and "maj" win over a bare "m").
   */
  lemma {:induction false} KeyIsLeftmostLongestMatch(s: string)
    ensures Key(s).None? <==> forall i, e :: !KeyOccurs(s, i, e)
    ensures Key(s).Some? ==>
      exists i, e :: && KeyOccurs(s, i, e)
                     && Key(s).value == Upper(s[i..e])
                     && forall i', e' :: KeyOccurs(s, i', e') ==> i <= i' && (i' == i ==> e' <= e)
  {
    forall i, e | KeyOccurs(s, i, e)
      ensures KeyAt(s, i).Some? && e <= KeyAt(s, i).value
    {
      KeyAtSpec(s, i);
    }
    match FindKey(s, 0)
    case None =>
    case Some(i) =>
      KeyAtSpec(s, i);
      var e := KeyAt(s, i).value;
      assert KeyOccurs(s, i, e) && Key(s).value == Upper(s[i..e]);
  }

  /** Upper-case forms of the accepted mode tokens. */
  ghost predicate IsUpperMode(u: string)
  {
    u == "MIN" || u == "MAJ" || u == "M"
  }

  /** The shape of a normalised key: a letter A to G, an optional '#' or 'B', an optional whitespace character, "MIN", "MAJ" or "M". */
  ghost predicate IsNormalizedKey(k: string)
  {
    && |k| >= 2 && 'A' <= k[0] <= 'G'
    && (forall c :: c in k ==> !IsLower(c))
    && ( || IsUpperMode(k[1..])
         || (IsSpace(k[1]) && IsUpperMode(k[2..]))
         || ((k[1] == '#' || k[1] == 'B') && IsUpperMode(k[2..]))
         || ((k[1] == '#' || k[1] == 'B') && |k| >= 3 && IsSpace(k[2]) && IsUpperMode(k[3..])))
  }

  lemma UpperOfLower(u: string)
    ensures Upper(Lower(u)) == Upper(u)
  {
    assert forall i :: 0 <= i < |u| ==> ToUpper(ToLower(u[i])) == ToUpper(u[i]);
  }

  lemma UpperOfModeWord(u: string)
    requires IsModeWord(u)
    ensures IsUpperMode(Upper(u))
  {
    UpperOfLower(u);
    assert Upper("min") == "MIN" && Upper("maj") == "MAJ" && Upper("m") == "M";
  }

  lemma UpperHasNoLower(u: string)
    ensures forall c :: c in Upper(u) ==> !IsLower(c)
  {
    forall c | c in Upper(u)
      ensures !IsLower(c)
    {
      var i :| 0 <= i < |u| && Upper(u)[i] == c;
    }
  }

  /** The upper-case form of a spaced mode token is a mode, or whitespace and a mode. */
  lemma UpperOfSpacedMode(u: string)
    requires IsSpacedMode(u)
    ensures |Upper(u)| == |u| >= 1
    ensures IsUpperMode(Upper(u)) || (IsSpace(Upper(u)[0]) && IsUpperMode(Upper(u)[1..]))
  {
    var k := Upper(u);
    if IsModeWord(u) {
      UpperOfModeWord(u);
    } else {
      assert k[0] == ToUpper(u[0]) == u[0];
      assert k[1..] == Upper(u[1..]);
      UpperOfModeWord(u[1..]);
    }
  }

  /** Upper-casing key text gives a normalised key. */
  lemma UpperOfKeyText(t: string)
    requires IsKeyText(t)
    ensures IsNormalizedKey(Upper(t))
  {
    var k := Upper(t);
    UpperHasNoLower(t);
    if IsSpacedMode(t[1..]) {
      assert k[1..] == Upper(t[1..]);
      UpperOfSpacedMode(t[1..]);
    } else {
      assert k[1] == ToUpper(t[1]);
      assert k[2..] == Upper(t[2..]);
      UpperOfSpacedMode(t[2..]);
      assert k[2..][1..] == k[3..];
    }
  }

  /** Whenever a key is found it is in normalised upper-case form. */
  lemma KeyIsNormalized(s: string)
    requires Key(s).Some?
    ensures IsNormalizedKey(Key(s).value)
  {
    KeyIsLeftmostLongestMatch(s);
    var i, e :| KeyOccurs(s, i, e) && Key(s).value == Upper(s[i..e]);
    UpperOfKeyText(s[i..e]);
  }

  // ------------------------------------------------------------------
  // Category: first hit among kick, snare, hat, bass, loop
  // ------------------------------------------------------------------

  datatype Category = Kick | Snare | HiHat | Bass | Loop | Other

  /** The label the renderer shows and stores: a capitalised word. */
  function Label(c: Category): (r: string)
    ensures r != [] && 'A' <= r[0] <= 'Z'
  {
    match c
    case Kick => "Kick"
    case Snare => "Snare"
    case HiHat => "HiHat"
    case Bass => "Bass"
    case Loop => "Loop"
    case Other => "Other"
  }

  /** The if/else chain over the lower-cased name: "kick" outranks every other keyword. */
  function CategoryOf(name: string): (c: Category)
    ensures c == Kick <==> Contains(Lower(name), "kick")
  {
    var lower := Lower(name);
    if Contains(lower, "kick") then Kick
    else if Contains(lower, "snare") then Snare
    else if Contains(lower, "hat") then HiHat
    else if Contains(lower, "bass") then Bass
    else if Contains(lower, "loop") then Loop
    else Other
  }

  /** The priority table: keyword and category, highest priority first. */
  const Rules: seq<(string, Category)> :=
    [("kick", Kick), ("snare", Snare), ("hat", HiHat), ("bass", Bass), ("loop", Loop)]

  /**
   * The category is that of the first rule whose keyword occurs in the
   * lower-cased name, and it is Other exactly when no keyword occurs.
   */
  lemma CategoryIsFirstHit(name: string)
    ensures CategoryOf(name) == Other <==> forall j :: 0 <= j < |Rules| ==> !Contains(Lower(name), Rules[j].0)
    ensures CategoryOf(name) != Other ==>
      exists j :: && 0 <= j < |Rules|
                  && Rules[j].1 == CategoryOf(name)
                  && Contains(Lower(name), Rules[j].0)
                  && forall k :: 0 <= k < j ==> !Contains(Lower(name), Rules[k].0)
  {
    var lower := Lower(name);
    var c := CategoryOf(name);
    if c == Kick { assert Rules[0].1 == c; }
    else if c == Snare { assert Rules[1].1 == c; }
    else if c == HiHat { assert Rules[2].1 == c; }
    else if c == Bass { assert Rules[3].1 == c; }
    else if c == Loop { assert Rules[4].1 == c; }
  }

  datatype Metadata = Metadata(bpm: Option<nat>, key: Option<string>, category: Category)

  /** `detectMetadata`: total, never fails. */
  function DetectMetadata(name: string): (m: Metadata)
    ensures m.bpm.Some? ==> m.bpm.value <= 999
    ensures m.category == CategoryOf(name)
  {
    Metadata(Bpm(name), Key(name), CategoryOf(name))
  }

  /** A tempo suffix starts with whitespace or a "b". */
  lemma BpmSuffixStart(s: string, j: nat)
    requires BpmSuffixAt(s, j)
    ensures j < |s| && (IsSpace(s[j]) || s[j] == 'b' || s[j] == 'B')
  {
    if !(j < |s| && IsSpace(s[j]) && WordAt(s, j + 1, "bpm")) {
      assert Lower(s[j..j + 3])[0] == 'b';
    }
  }

  /** A string without upper-case letters is its own lower-case form. */
  lemma LowerOfLowerCase(u: string)
    requires forall c :: c in u ==> !IsUpper(c)
    ensures Lower(u) == u
  {
  }

  /** A word whose first letter never occurs is not contained. */
  lemma NotContainedWithoutFirst(s: string, t: string)
    requires t != [] && t[0] !in s
    ensures !Contains(s, t)
  {
  }

  lemma DecimalExamples()
    ensures Decimal("120") == 120 && Decimal("200") == 200 && Decimal("99") == 99
  {
    assert "120"[..2] == "12" && "12"[..1] == "1" && "1"[..0] == "";
    assert "200"[..2] == "20" && "20"[..1] == "2" && "2"[..0] == "";
    assert "99"[..1] == "9" && "9"[..0] == "";
  }

  lemma ExampleBpm120()
    ensures Bpm("120bpm") == Some(120)
  {
    DecimalExamples();
    assert "" + "120bpm" + "" == "120bpm";
    assert "120bpm"[..3] == "120";
    assert "120" + "" + "bpm" == "120bpm";
    LowerOfLowerCase("bpm");
    BpmTextOf("120", "", "bpm");
    BpmAfterDigitFreePrefix("", "120bpm", "", 3);
  }

  lemma ExampleBpmSpace()
    ensures Bpm("Pad 120 BPM.wav") == Some(120)
  {
    DecimalExamples();
    assert "Pad " + "120 BPM" + ".wav" == "Pad 120 BPM.wav";
    assert "120 BPM"[..3] == "120";
    assert "120" + " " + "BPM" == "120 BPM";
    assert Lower("BPM") == "bpm";
    BpmTextOf("120", " ", "BPM");
    BpmAfterDigitFreePrefix("Pad ", "120 BPM", ".wav", 3);
  }

  /** Three digits followed by a fourth fail, so the match starts one digit later. */
  lemma ExampleBpmBacktrack()
    ensures Bpm("1200bpm") == Some(200)
  {
    DecimalExamples();
    var s := "1200bpm";
    assert s[1..7] == "200bpm" && s[1..4] == "200";
    assert "200" + "" + "bpm" == "200bpm";
    NoBpmAtFourDigits(s, 0);
    LowerOfLowerCase("bpm");
    BpmTextOf("200", "", "bpm");
    BpmOfFirstOccurrence(s, 1, 7, 3);
  }

  /** At the start of four digits neither three nor two digits are followed by a tempo suffix. */
  lemma NoBpmAtFourDigits(s: string, i: nat)
    requires DigitsAt(s, i, 4)
    ensures BpmAt(s, i).None?
  {
    if BpmSuffixAt(s, i + 3) { BpmSuffixStart(s, i + 3); }
    if BpmSuffixAt(s, i + 2) { BpmSuffixStart(s, i + 2); }
  }

  /** The leftmost tempo wins: a later one is ignored. */
  lemma ExampleBpmFirst()
    ensures Bpm("99bpm 120bpm") == Some(99)
  {
    DecimalExamples();
    assert "" + "99bpm" + " 120bpm" == "99bpm 120bpm";
    assert "99bpm"[..2] == "99";
    assert "99" + "" + "bpm" == "99bpm";
    LowerOfLowerCase("bpm");
    BpmTextOf("99", "", "bpm");
    BpmAfterDigitFreePrefix("", "99bpm", " 120bpm", 2);
  }

  lemma ExampleKeyMaj()
    ensures Key("Cmaj") == Some("CMAJ")
  {
    var s := "Cmaj";
    assert s[1..4] == "maj" && s[0..4] == s;
    LowerOfLowerCase("maj");
    assert !WordAt(s, 1, "min");
    assert WordAt(s, 1, "maj");
    assert ModeAt(s, 1) == Some(4);
    assert !IsAccidental(s[1]) && !IsSpace(s[1]);
    assert SpacedModeAt(s, 1) == Some(4);
    assert KeyAt(s, 0) == Some(4);
    assert Upper(s) == "CMAJ";
  }

  /** The key pattern has no word boundary: the "am" inside "sample" is read as A minor. */
  lemma ExampleKeySample()
    ensures Key("sample") == Some("AM")
  {
    var s := "sample";
    assert KeyAt(s, 0) == None;
    assert s[2..3] == "m" && s[2..5] == "mpl";
    assert Lower(s[2..5])[1] == 'p';
    assert Lower(s[2..3]) == "m";
    assert ModeAt(s, 2) == Some(3);
    assert !IsAccidental(s[2]) && !IsSpace(s[2]);
    assert SpacedModeAt(s, 2) == Some(3);
    assert KeyAt(s, 1) == Some(3);
    assert FindKey(s, 0) == Some(1);
    assert Upper(s[1..3]) == "AM";
  }

  lemma ExampleKeyMin()
    ensures Key("a#min") == Some("A#MIN")
  {
    var s := "a#min";
    assert s[2..5] == "min" && s[0..5] == s;
    LowerOfLowerCase("min");
    assert WordAt(s, 2, "min");
    assert ModeAt(s, 2) == Some(5);
    assert IsAccidental(s[1]) && !IsSpace(s[2]);
    assert SpacedModeAt(s, 2) == Some(5);
    assert KeyAt(s, 0) == Some(5);
    assert Upper(s) == "A#MIN";
  }

  lemma ExampleCategory()
    ensures CategoryOf("kick_bass_01.wav") == Kick
  {
    var lower := Lower("kick_bass_01.wav");
    assert lower[0..4] == "kick";
    assert OccursAt(lower, "kick", 0);
  }

  /** A name without any of the letters k, s, h, b and l, in either case, is Other. */
  lemma OtherWithoutKeywordInitials(name: string)
    requires forall c :: c in name ==> ToLower(c) !in "kshbl"
    ensures CategoryOf(name) == Other
  {
    var lower := Lower(name);
    assert forall c :: c in lower ==> c !in "kshbl" by {
      forall c | c in lower
        ensures c !in "kshbl"
      {
        var k :| 0 <= k < |lower| && lower[k] == c;
        assert name[k] in name;
      }
    }
    NotContainedWithoutFirst(lower, "kick");
    NotContainedWithoutFirst(lower, "snare");
    NotContainedWithoutFirst(lower, "hat");
    NotContainedWithoutFirst(lower, "bass");
    NotContainedWithoutFirst(lower, "loop");
  }
}
