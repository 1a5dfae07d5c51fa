/** The library's validators (`vld`): recognising a hexadecimal colour text and a packed
    24-bit integer among the values handed to the constructor. */
module Validate {
  import opened JsText
  import opened JsValues

  /** Where the left-to-right scan of the hex pattern stops: after the leading white space,
      after the optional '#', after the hex digits, and after the trailing white space. */
  datatype Scan = Scan(lead: nat, hash: nat, digits: nat, trail: nat)

  /** The left-to-right scan of the pattern's runs. Each run can only match greedily (the
      character after it never belongs to its class), so a single scan finds the only way the
      pattern can match; `ScanRuns` states what each run holds. */
  function ScanHex(s: string): (p: Scan)
    ensures p.lead <= p.hash <= p.digits <= p.trail <= |s|
    ensures p.hash == (if p.lead < |s| && s[p.lead] == '#' then p.lead + 1 else p.lead)
  {
    var i := Span(s, Space);
    var j := if i < |s| && s[i] == '#' then i + 1 else i;
    var k := j + Span(s[j..], DigitOf(16));
    var m := k + Span(s[k..], Space);
    Scan(i, j, k, m)
  }

  /** The runs of a scan `p` of `s`: white space up to `lead`, hex digits from `hash` to
      `digits`, white space from `digits` to `trail`, each ending at the end of the text or at a
      character outside its class. */
  predicate Runs(s: string, p: Scan)
    requires p.lead <= p.hash <= p.digits <= p.trail <= |s|
  {
    && (forall x :: 0 <= x < p.lead ==> IsSpace(s[x]))
    && (p.lead < |s| ==> !IsSpace(s[p.lead]))
    && (forall x :: p.hash <= x < p.digits ==> IsHexDigit(s[x]))
    && (p.digits < |s| ==> !IsHexDigit(s[p.digits]))
    && (forall x :: p.digits <= x < p.trail ==> IsSpace(s[x]))
    && (p.trail < |s| ==> !IsSpace(s[p.trail]))
  }

  /** The scan's runs have the properties `Runs` states. */
  lemma ScanRuns(s: string)
    ensures Runs(s, ScanHex(s))
  {
    var p := ScanHex(s);
    assert p.lead == Span(s, Space);
    RunFrom(s, p.hash, p.digits, DigitOf(16));
    RunFrom(s, p.digits, p.trail, Space);
  }

  /** A run measured by `Span` on the suffix from `j` lies in the text from `j` to `e`. */
  lemma RunFrom(s: string, j: nat, e: nat, k: CharClass)
    requires j <= |s| && e == j + Span(s[j..], k)
    ensures e <= |s|
    ensures forall x :: j <= x < e ==> In(s[x], k)
    ensures e < |s| ==> !In(s[e], k)
  {
    var d := s[j..];
    forall x | j <= x < e ensures In(s[x], k) {
      assert s[x] == d[x - j];
    }
    if e < |s| {
      assert s[e] == d[e - j];
    }
  }

  /** The regular expression /^\s*#?[a-fA-F0-9]{1,6}\s*;?$/ : white space, an optional '#',
      one to six hex digits, white space and an optional ';' that ends the text. */
  predicate HexPattern(s: string) {
    var p := ScanHex(s);
    && 1 <= p.digits - p.hash <= 6
    && (p.trail == |s| || (p.trail == |s| - 1 && s[p.trail] == ';'))
  }

  /** `vld.hex`: a string that matches the hex pattern. */
  predicate IsHex(v: Value) {
    v.Str? && HexPattern(v.text)
  }

  /** `vld.int`: a number in [0, 0xFFFFFF]; fractions are accepted. */
  predicate IsFlatInt(v: Value) {
    v.Num? && v.n.Finite? && 0.0 <= v.n.value <= 0xFFFFFF as real
  }

  /** The pieces of a text the hex pattern reads. */
  datatype HexLiteral = HexLiteral(lead: string, hash: bool, digits: string, trail: string, semicolon: bool)
  {
    /** The constraints the pattern puts on each piece. */
    predicate WellFormed() {
      && (forall i :: 0 <= i < |lead| ==> IsSpace(lead[i]))
      && 1 <= |digits| <= 6
      && (forall i :: 0 <= i < |digits| ==> IsHexDigit(digits[i]))
      && (forall i :: 0 <= i < |trail| ==> IsSpace(trail[i]))
    }

    /** The text made of the pieces. */
    function Text(): string {
      lead + (if hash then "#" else "") + digits + trail + (if semicolon then ";" else "")
    }
  }

  /** The pieces the scan finds in `s`. */
  function Pieces(s: string): (p: HexLiteral)
    requires HexPattern(s)
  {
    var q := ScanHex(s);
    HexLiteral(s[..q.lead], q.hash > q.lead, s[q.hash..q.digits], s[q.digits..q.trail], q.trail < |s|)
  }

  /** Soundness of the scan: a text it accepts is made of well-formed pieces. */
  lemma HexPatternSound(s: string)
    requires HexPattern(s)
    ensures Pieces(s).WellFormed()
    ensures Pieces(s).Text() == s
  {
    PiecesWellFormed(s);
    PiecesText(s);
  }

  lemma PiecesWellFormed(s: string)
    requires HexPattern(s)
    ensures Pieces(s).WellFormed()
  {
    var q := ScanHex(s);
    var p := Pieces(s);
    ScanRuns(s);
    forall x | 0 <= x < |p.lead| ensures IsSpace(p.lead[x]) {
      assert p.lead[x] == s[x];
    }
    forall x | 0 <= x < |p.digits| ensures IsHexDigit(p.digits[x]) {
      assert p.digits[x] == s[q.hash + x];
    }
    forall x | 0 <= x < |p.trail| ensures IsSpace(p.trail[x]) {
      assert p.trail[x] == s[q.digits + x];
    }
  }

  lemma PiecesText(s: string)
    requires HexPattern(s)
    ensures Pieces(s).Text() == s
  {
    var q := ScanHex(s);
    var p := Pieces(s);
    var h := if p.hash then "#" else "";
    var c := if p.semicolon then ";" else "";
    assert s[q.lead..q.hash] == h;
    assert s[q.trail..] == c;
    FiveSlices(s, q.lead, q.hash, q.digits, q.trail);
  }

  /** A text is the concatenation of its slices between four cut points. */
  lemma FiveSlices(s: string, a: nat, b: nat, c: nat, d: nat)
    requires a <= b <= c <= d <= |s|
    ensures s == s[..a] + s[a..b] + s[b..c] + s[c..d] + s[d..]
  {
    assert s[..b] == s[..a] + s[a..b];
    assert s[..c] == s[..b] + s[b..c];
    assert s[..d] == s[..c] + s[c..d];
    assert s == s[..d] + s[d..];
  }

  /** The scan is determined by the properties `ScanRuns` states. */
  lemma {:induction false} ScanUnique(s: string, q: Scan)
    requires q.lead <= q.hash <= q.digits <= q.trail <= |s|
    requires forall x :: 0 <= x < q.lead ==> IsSpace(s[x])
    requires q.lead < |s| ==> !IsSpace(s[q.lead])
    requires q.hash == (if q.lead < |s| && s[q.lead] == '#' then q.lead + 1 else q.lead)
    requires forall x :: q.hash <= x < q.digits ==> IsHexDigit(s[x])
    requires q.digits < |s| ==> !IsHexDigit(s[q.digits])
    requires forall x :: q.digits <= x < q.trail ==> IsSpace(s[x])
    requires q.trail < |s| ==> !IsSpace(s[q.trail])
    ensures ScanHex(s) == q
  {
    assert Span(s, Space) == q.lead by {
      SpanUnique(s, Space, q.lead);
    }
    assert Span(s[q.hash..], DigitOf(16)) == q.digits - q.hash by {
      SpanFrom(s, q.hash, DigitOf(16), q.digits);
    }
    assert Span(s[q.digits..], Space) == q.trail - q.digits by {
      SpanFrom(s, q.digits, Space, q.trail);
    }
    ScanOfSpans(s, q);
  }

  /** The scan is fixed by the lengths of its three runs. */
  lemma ScanOfSpans(s: string, q: Scan)
    requires q.lead <= q.hash <= q.digits <= q.trail <= |s|
    requires Span(s, Space) == q.lead
    requires q.hash == (if q.lead < |s| && s[q.lead] == '#' then q.lead + 1 else q.lead)
    requires Span(s[q.hash..], DigitOf(16)) == q.digits - q.hash
    requires Span(s[q.digits..], Space) == q.trail - q.digits
    ensures ScanHex(s) == q
  {
    var i := Span(s, Space);
    assert ScanHex(s).lead == i;
    assert ScanHex(s).hash == q.hash;
    assert ScanHex(s).digits == q.hash + Span(s[q.hash..], DigitOf(16));
    assert ScanHex(s).trail == q.digits + Span(s[q.digits..], Space);
  }

  /** Where the pieces of a literal sit in its text. */
  function Bounds(p: HexLiteral): (q: Scan)
    ensures q.trail + (if p.semicolon then 1 else 0) == |p.Text()|
  {
    var lead := |p.lead|;
    var hash := lead + (if p.hash then 1 else 0);
    Scan(lead, hash, hash + |p.digits|, hash + |p.digits| + |p.trail|)
  }

  /** Each piece of a literal is the matching slice of its text. */
  lemma TextSlices(p: HexLiteral)
    ensures var s, q := p.Text(), Bounds(p);
      && s[..q.lead] == p.lead
      && s[q.lead..q.hash] == (if p.hash then "#" else "")
      && s[q.hash..q.digits] == p.digits
      && s[q.digits..q.trail] == p.trail
      && s[q.trail..] == (if p.semicolon then ";" else "")
  {
    LeadSlice(p);
    HashSlice(p);
    DigitsSlice(p);
    TrailSlice(p);
    EndSlice(p);
  }

  lemma LeadSlice(p: HexLiteral)
    ensures p.Text()[..Bounds(p).lead] == p.lead
  {
  }

  lemma HashSlice(p: HexLiteral)
    ensures p.Text()[Bounds(p).lead..Bounds(p).hash] == (if p.hash then "#" else "")
  {
  }

  lemma DigitsSlice(p: HexLiteral)
    ensures p.Text()[Bounds(p).hash..Bounds(p).digits] == p.digits
  {
  }

  lemma TrailSlice(p: HexLiteral)
    ensures p.Text()[Bounds(p).digits..Bounds(p).trail] == p.trail
  {
  }

  lemma EndSlice(p: HexLiteral)
    ensures p.Text()[Bounds(p).trail..] == (if p.semicolon then ";" else "")
  {
  }

  /** The scan of a well-formed literal's text stops at the piece boundaries. */
  lemma ScanOfText(p: HexLiteral)
    requires p.WellFormed()
    ensures ScanHex(p.Text()) == Bounds(p)
  {
    LeadOfText(p);
    DigitsOfText(p);
    TrailOfText(p);
    ScanUnique(p.Text(), Bounds(p));
  }

  /** The leading white space and the '#' of a literal are where the scan expects them. */
  lemma LeadOfText(p: HexLiteral)
    requires p.WellFormed()
    ensures var s, q := p.Text(), Bounds(p);
      && q.lead <= q.hash <= q.digits <= q.trail <= |s|
      && (forall x :: 0 <= x < q.lead ==> IsSpace(s[x]))
      && q.lead < |s| && !IsSpace(s[q.lead])
      && q.hash == (if s[q.lead] == '#' then q.lead + 1 else q.lead)
  {
    var s, q := p.Text(), Bounds(p);
    LeadSlice(p);
    HashSlice(p);
    DigitsSlice(p);
    forall x | 0 <= x < q.lead ensures IsSpace(s[x]) {
      assert s[x] == p.lead[x];
    }
    if p.hash {
      assert s[q.lead] == '#';
    } else {
      assert s[q.lead] == p.digits[0];
      DigitIsNoSpace(p.digits[0]);
    }
  }

  /** The digits of a literal are a run of hex digits that the scan cannot extend. */
  lemma DigitsOfText(p: HexLiteral)
    requires p.WellFormed()
    ensures var s, q := p.Text(), Bounds(p);
      && q.digits <= |s|
      && (forall x :: q.hash <= x < q.digits ==> IsHexDigit(s[x]))
      && (q.digits < |s| ==> !IsHexDigit(s[q.digits]))
  {
    var s, q := p.Text(), Bounds(p);
    assert forall x :: q.hash <= x < q.digits ==> IsHexDigit(s[x]) by {
      DigitsSlice(p);
      forall x | q.hash <= x < q.digits ensures IsHexDigit(s[x]) {
        assert s[x] == p.digits[x - q.hash];
      }
    }
    assert q.digits < |s| ==> !IsHexDigit(s[q.digits]) by {
      if q.digits < q.trail {
        TrailSlice(p);
        assert s[q.digits] == p.trail[0];
        SpaceIsNoDigit(p.trail[0]);
      } else if q.digits < |s| {
        EndSlice(p);
        assert s[q.digits] == ';';
      }
    }
  }

  /** The trailing white space of a literal is a run that stops at the ';' or the end. */
  lemma TrailOfText(p: HexLiteral)
    requires p.WellFormed()
    ensures var s, q := p.Text(), Bounds(p);
      && q.trail <= |s|
      && (forall x :: q.digits <= x < q.trail ==> IsSpace(s[x]))
      && (q.trail < |s| ==> !IsSpace(s[q.trail]))
  {
    var s, q := p.Text(), Bounds(p);
    TrailSlice(p);
    EndSlice(p);
    forall x | q.digits <= x < q.trail ensures IsSpace(s[x]) {
      assert s[x] == p.trail[x - q.digits];
    }
    if q.trail < |s| {
      assert s[q.trail] == ';';
    }
  }

  /** Completeness of the scan: every text made of well-formed pieces is accepted, and the
      scan finds exactly those pieces. */
  lemma HexPatternComplete(p: HexLiteral)
    requires p.WellFormed()
    ensures HexPattern(p.Text())
    ensures Pieces(p.Text()) == p
  {
    ScanOfText(p);
    TextSlices(p);
  }
}
