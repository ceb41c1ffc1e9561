/** The handful of PHP string built-ins the lazy-load rewriter relies on,
    with PHP's own edge cases: `strpos` reports the FIRST offset (so a match
    at offset 0 is falsy when used as a condition), `empty` treats "0" as
    empty, `str_replace` replaces every non-overlapping occurrence from left
    to right, `explode` keeps empty pieces and `rtrim` strips every trailing
    copy of a character. */
module PhpStrings {

  datatype Option<+T> = None | Some(value: T)

  /** `needle` occurs in `s` starting at offset `k`. */
  ghost predicate OccursAt(s: string, needle: string, k: nat)
  {
    k + |needle| <= |s| && s[k..k + |needle|] == needle
  }

  /** The first offset at or after `k` where `needle` occurs in `s`. */
  function FindFrom(s: string, needle: string, k: nat): Option<nat>
    decreases |s| - k
  {
    if k + |needle| > |s| then None
    else if s[k..k + |needle|] == needle then Some(k)
    else FindFrom(s, needle, k + 1)
  }

  /** The search finds the first occurrence at or after `k`, or reports that
      there is none. */
  lemma {:induction false} FindFromSpec(s: string, needle: string, k: nat)
    ensures var r := FindFrom(s, needle, k);
            (r.Some? ==> k <= r.value && OccursAt(s, needle, r.value)) &&
            (r.Some? ==> forall j :: k <= j < r.value ==> !OccursAt(s, needle, j)) &&
            (r.None? ==> forall j :: k <= j ==> !OccursAt(s, needle, j))
    decreases |s| - k
  {
    if k + |needle| <= |s| && s[k..k + |needle|] != needle {
      FindFromSpec(s, needle, k + 1);
    }
  }

  /** `strpos` returns the first offset of the needle, or false when there is none. */
  lemma StrposSpec(s: string, needle: string)
    ensures var r := Strpos(s, needle);
            (r.Some? ==> OccursAt(s, needle, r.value)) &&
            (r.Some? ==> forall j :: 0 <= j < r.value ==> !OccursAt(s, needle, j)) &&
            (r.None? ==> forall j :: 0 <= j ==> !OccursAt(s, needle, j))
  {
    FindFromSpec(s, needle, 0);
  }

  /** PHP `strpos($s, $needle)`: the first offset of `needle`, or false. */
  function Strpos(s: string, needle: string): Option<nat>
  {
    FindFrom(s, needle, 0)
  }

  /** `false !== strpos($s, $needle)`: the needle occurs somewhere. */
  predicate Contains(s: string, needle: string)
  {
    Strpos(s, needle).Some?
  }

  /** `if ( strpos( $s, $needle ) )`: the first occurrence exists and is not
      at offset 0, because PHP reads offset 0 as false. */
  predicate StrposTruthy(s: string, needle: string)
  {
    var r := Strpos(s, needle);
    r.Some? && r.value > 0
  }

  /** A PHP string is truthy (and not `empty()`) unless it is "" or "0". */
  predicate Truthy(s: string)
  {
    s != "" && s != "0"
  }

  /** A value read with `get_attribute` used as a condition: absent is false. */
  predicate TruthyValue(v: Option<string>)
  {
    v.Some? && Truthy(v.value)
  }

  lemma ContainsIff(s: string, needle: string)
    ensures Contains(s, needle) <==> exists k :: OccursAt(s, needle, k)
  {
    StrposSpec(s, needle);
    if exists k :: OccursAt(s, needle, k) {
      var k :| OccursAt(s, needle, k);
      assert Strpos(s, needle).Some?;
    }
  }

  /** The condition `if ( strpos(...) )` fails exactly when the needle is
      absent or its first occurrence is at offset 0. */
  lemma StrposTruthyIff(s: string, needle: string)
    ensures StrposTruthy(s, needle) <==>
            (exists k :: k > 0 && OccursAt(s, needle, k)) && !OccursAt(s, needle, 0)
  {
    StrposSpec(s, needle);
    if (exists k :: k > 0 && OccursAt(s, needle, k)) && !OccursAt(s, needle, 0) {
      var k :| k > 0 && OccursAt(s, needle, k);
      assert Strpos(s, needle).Some?;
    }
  }

  /** An occurrence inside a piece is an occurrence inside any text the piece
      is embedded in. */
  lemma OccursInContext(a: string, needle: string, i: nat, p: string, q: string)
    requires OccursAt(a, needle, i)
    ensures OccursAt(p + a + q, needle, |p| + i)
  {
    assert (p + a + q)[|p| + i..|p| + i + |needle|] == a[i..i + |needle|];
  }

  /** PHP `str_replace($search, $rep, $s)` for one search string: every
      non-overlapping occurrence, scanning left to right; an empty search
      string leaves the subject unchanged. */
  function StrReplace(s: string, search: string, rep: string): string
    decreases |s|
  {
    if search == [] || |s| < |search| then s
    else if s[..|search|] == search then rep + StrReplace(s[|search|..], search, rep)
    else [s[0]] + StrReplace(s[1..], search, rep)
  }

  /** Replacing a string that does not occur changes nothing. */
  lemma {:induction false} StrReplaceAbsent(s: string, search: string, rep: string)
    requires !Contains(s, search)
    ensures StrReplace(s, search, rep) == s
    decreases |s|
  {
    StrposSpec(s, search);
    if search != [] && |s| >= |search| {
      assert !OccursAt(s, search, 0);
      assert s[..|search|] != search;
      if !Contains(s[1..], search) {
        StrReplaceAbsent(s[1..], search, rep);
      } else {
        StrposSpec(s[1..], search);
        var k := Strpos(s[1..], search).value;
        assert s[1..][k..k + |search|] == s[k + 1..k + 1 + |search|];
        assert OccursAt(s, search, k + 1);
        assert false;
      }
    }
  }

  /** The text before the first occurrence is kept, that occurrence becomes
      `rep`, and the scan resumes right after it. */
  lemma {:induction false} StrReplaceAtFirst(s: string, search: string, rep: string, k: nat)
    requires search != []
    requires OccursAt(s, search, k)
    requires forall j :: 0 <= j < k ==> !OccursAt(s, search, j)
    ensures StrReplace(s, search, rep) == s[..k] + rep + StrReplace(s[k + |search|..], search, rep)
    decreases k, 1
  {
    if k == 0 {
      StrReplaceAtStart(s, search, rep);
      assert s[..0] + rep == rep;
    } else {
      StrReplaceAtLater(s, search, rep, k);
    }
  }

  /** `StrReplaceAtFirst` for a first occurrence past offset 0. */
  lemma {:induction false} StrReplaceAtLater(s: string, search: string, rep: string, k: nat)
    requires search != [] && k > 0
    requires OccursAt(s, search, k)
    requires forall j :: 0 <= j < k ==> !OccursAt(s, search, j)
    ensures StrReplace(s, search, rep) == s[..k] + rep + StrReplace(s[k + |search|..], search, rep)
    decreases k, 0
  {
    var t := s[1..];
    assert !OccursAt(s, search, 0);
    assert StrReplace(t, search, rep) == t[..k - 1] + rep + StrReplace(t[k - 1 + |search|..], search, rep) by {
      FirstInTail(s, search, k);
      StrReplaceAtFirst(t, search, rep, k - 1);
    }
    StrReplaceConsStep(s, search, rep, k);
  }

  /** An occurrence at offset 0 is replaced and the scan resumes after it. */
  lemma StrReplaceAtStart(s: string, search: string, rep: string)
    requires search != [] && OccursAt(s, search, 0)
    ensures StrReplace(s, search, rep) == rep + StrReplace(s[|search|..], search, rep)
  {
    assert s[..|search|] == search;
  }

  /** The inductive step of `StrReplaceAtFirst`: a first character where no
      occurrence starts is kept in front. */
  lemma StrReplaceConsStep(s: string, search: string, rep: string, k: nat)
    requires search != [] && 0 < k && k + |search| <= |s|
    requires !OccursAt(s, search, 0)
    requires StrReplace(s[1..], search, rep) ==
             s[1..][..k - 1] + rep + StrReplace(s[1..][k - 1 + |search|..], search, rep)
    ensures StrReplace(s, search, rep) == s[..k] + rep + StrReplace(s[k + |search|..], search, rep)
  {
    StrReplaceSkip(s, search, rep);
    var rest := StrReplace(s[k + |search|..], search, rep);
    ConsSplit(s, |search|, k, rep, rest);
  }

  /** The first occurrence past offset 0 is, in the text without its first
      character, one offset earlier. */
  lemma FirstInTail(s: string, search: string, k: nat)
    requires k > 0
    requires OccursAt(s, search, k)
    requires forall j :: 0 <= j < k ==> !OccursAt(s, search, j)
    ensures OccursAt(s[1..], search, k - 1)
    ensures forall j :: 0 <= j < k - 1 ==> !OccursAt(s[1..], search, j)
  {
    forall j | 0 <= j < k - 1 ensures !OccursAt(s[1..], search, j) {
      ShiftOccurs(s, search, j);
    }
    ShiftOccurs(s, search, k - 1);
  }

  lemma ConsSplit(s: string, n: nat, k: nat, rep: string, rest: string)
    requires 0 < k && k + n <= |s|
    ensures [s[0]] + (s[1..][..k - 1] + rep + rest) == s[..k] + rep + rest
    ensures s[1..][k - 1 + n..] == s[k + n..]
  {
    assert [s[0]] + s[1..][..k - 1] == s[..k];
  }

  /** Where no occurrence starts, the first character is kept. */
  lemma StrReplaceSkip(s: string, search: string, rep: string)
    requires search != [] && |s| > 0
    requires !OccursAt(s, search, 0)
    ensures StrReplace(s, search, rep) == [s[0]] + StrReplace(s[1..], search, rep)
  {
    if |s| < |search| {
      StrReplaceShort(s[1..], search, rep);
      assert [s[0]] + s[1..] == s;
    }
  }

  /** A subject shorter than the search string is left as it is. */
  lemma StrReplaceShort(s: string, search: string, rep: string)
    requires |s| < |search|
    ensures StrReplace(s, search, rep) == s
  {
  }

  lemma ShiftOccurs(s: string, needle: string, j: nat)
    requires |s| > 0
    ensures OccursAt(s[1..], needle, j) <==> OccursAt(s, needle, j + 1)
  {
    if j + |needle| <= |s| - 1 {
      assert s[1..][j..j + |needle|] == s[j + 1..j + 1 + |needle|];
    }
  }

  /** A replacement at least as long as the search string never shortens the
      subject, and one strictly longer lengthens any subject the search string
      occurs in. */
  lemma {:induction false} StrReplaceLength(s: string, search: string, rep: string)
    requires search != [] && |rep| >= |search|
    ensures |StrReplace(s, search, rep)| >= |s|
    ensures |rep| > |search| && (exists k: nat :: OccursAt(s, search, k)) ==> |StrReplace(s, search, rep)| > |s|
    decreases |s|
  {
    if |s| >= |search| {
      if s[..|search|] == search {
        StrReplaceLength(s[|search|..], search, rep);
      } else {
        StrReplaceLength(s[1..], search, rep);
        if exists k: nat :: OccursAt(s, search, k) {
          var k: nat :| OccursAt(s, search, k);
          assert k != 0;
          ShiftOccurs(s, search, k - 1);
        }
      }
    }
  }

  /** Replacing the whole subject by itself yields the replacement. */
  lemma StrReplaceWhole(s: string, rep: string)
    requires s != []
    ensures StrReplace(s, s, rep) == rep
  {
    assert s[|s|..] == [];
  }

  /** PHP `explode($c, $s)` for a one-character delimiter. */
  function Split(s: string, c: char): (r: seq<string>)
    decreases |s|
    ensures |r| >= 1
    ensures |r| > 1 <==> c in s
  {
    if |s| == 0 then [""]
    else
      var rest := Split(s[1..], c);
      if s[0] == c then [""] + rest
      else [[s[0]] + rest[0]] + rest[1..]
  }

  /** PHP `implode($c, $parts)`, the inverse of `Split`. */
  function Join(parts: seq<string>, c: char): string
    decreases |parts|
  {
    if |parts| == 0 then ""
    else if |parts| == 1 then parts[0]
    else parts[0] + [c] + Join(parts[1..], c)
  }

  /** `explode` and `implode` are inverse: the pieces hold no delimiter and
      joining them back gives the original text. */
  lemma {:induction false} SplitJoin(s: string, c: char)
    ensures forall i :: 0 <= i < |Split(s, c)| ==> c !in Split(s, c)[i]
    ensures Join(Split(s, c), c) == s
    decreases |s|
  {
    if |s| > 0 {
      SplitJoin(s[1..], c);
      var rest := Split(s[1..], c);
      if s[0] == c {
        SplitJoinAtDelimiter(s, c, rest);
      } else {
        SplitJoinOther(s, c, rest);
      }
    }
  }

  lemma SplitJoinAtDelimiter(s: string, c: char, rest: seq<string>)
    requires |s| > 0 && s[0] == c && rest == Split(s[1..], c)
    requires forall i :: 0 <= i < |rest| ==> c !in rest[i]
    requires Join(rest, c) == s[1..]
    ensures forall i :: 0 <= i < |Split(s, c)| ==> c !in Split(s, c)[i]
    ensures Join(Split(s, c), c) == s
  {
    var r := [""] + rest;
    assert Split(s, c) == r;
    assert r[1..] == rest;
    assert Join(r, c) == "" + [c] + Join(rest, c);
    assert [c] + s[1..] == s;
  }

  lemma SplitJoinOther(s: string, c: char, rest: seq<string>)
    requires |s| > 0 && s[0] != c && rest == Split(s[1..], c)
    requires forall i :: 0 <= i < |rest| ==> c !in rest[i]
    requires Join(rest, c) == s[1..]
    ensures forall i :: 0 <= i < |Split(s, c)| ==> c !in Split(s, c)[i]
    ensures Join(Split(s, c), c) == s
  {
    var r := [[s[0]] + rest[0]] + rest[1..];
    assert Split(s, c) == r;
    JoinCons(s[0], rest, c);
    PiecesCons(s[0], rest, c);
    assert [s[0]] + s[1..] == s;
  }

  /** Prefixing the first piece prefixes the joined text. */
  lemma JoinCons(x: char, rest: seq<string>, c: char)
    requires |rest| >= 1
    ensures Join([[x] + rest[0]] + rest[1..], c) == [x] + Join(rest, c)
  {
    var r := [[x] + rest[0]] + rest[1..];
    if |rest| > 1 {
      assert r[1..] == rest[1..];
    }
  }

  /** Prefixing the first piece with a non-delimiter keeps every piece free
      of the delimiter. */
  lemma PiecesCons(x: char, rest: seq<string>, c: char)
    requires |rest| >= 1 && x != c
    requires forall i :: 0 <= i < |rest| ==> c !in rest[i]
    ensures forall i :: 0 <= i < |[[x] + rest[0]] + rest[1..]| ==> c !in ([[x] + rest[0]] + rest[1..])[i]
  {
    var r := [[x] + rest[0]] + rest[1..];
    forall i | 0 <= i < |r| ensures c !in r[i] {
      if i > 0 { assert r[i] == rest[i]; }
    }
  }

  /** `explode` cuts at the first delimiter: the first piece is the text
      before it. */
  lemma {:induction false} SplitAtFirst(p: string, c: char, rest: string)
    requires c !in p
    ensures Split(p + [c] + rest, c) == [p] + Split(rest, c)
    decreases |p|
  {
    if |p| == 0 {
      assert (p + [c] + rest)[1..] == rest;
    } else {
      SplitAtFirst(p[1..], c, rest);
      assert (p + [c] + rest)[1..] == p[1..] + [c] + rest;
      assert [p[0]] + p[1..] == p;
    }
  }

  /** A text without the delimiter is a single piece. */
  lemma SplitWithout(s: string, c: char)
    requires c !in s
    ensures Split(s, c) == [s]
  {
    var r := Split(s, c);
    assert |r| == 1;
    SplitJoin(s, c);
    assert Join(r, c) == r[0];
  }

  /** The first piece of `q + tail` is `q` when the tail is empty or starts
      with the delimiter. */
  lemma SplitFirstPiece(q: string, c: char, tail: string)
    requires c !in q
    requires tail == [] || tail[0] == c
    ensures Split(q + tail, c)[0] == q
  {
    if tail == [] {
      SplitWithout(q, c);
      assert q + tail == q;
    } else {
      SplitAtFirst(q, c, tail[1..]);
      assert q + [c] + tail[1..] == q + tail;
    }
  }

  /** PHP `rtrim($s, $c)` for one character: every trailing copy is removed. */
  function TrimTrailing(s: string, c: char): (r: string)
    decreases |s|
    ensures |r| <= |s| && r == s[..|r|]
    ensures r == [] || r[|r| - 1] != c
    ensures forall i :: |r| <= i < |s| ==> s[i] == c
  {
    if |s| > 0 && s[|s| - 1] == c then TrimTrailing(s[..|s| - 1], c) else s
  }
}
