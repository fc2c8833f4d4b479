/**
 Splitting an assignment list at the commas that are not inside quotes
 (`split_by_commas`). The quote tracking is a small automaton: outside any
 quote, or inside a run opened by `"` or `'` that only the same character closes.
 */
module CommaSplit {
  import opened Text

  datatype Quote = Outside | Inside(mark: char)

  predicate IsQuoteChar(c: char) {
    c == '"' || c == '\''
  }

  /** A state the automaton can reach: a run is only ever marked by the quote
      character that opened it. */
  predicate Tracked(st: Quote) {
    st.Inside? ==> IsQuoteChar(st.mark)
  }

  /** The automaton's move on one character: only a quote character changes
      the state; outside quotes it opens a run, and inside a run only the
      opening character closes it. */
  function Step(st: Quote, c: char): (r: Quote)
    ensures r != st ==> IsQuoteChar(c)
    ensures st.Outside? && IsQuoteChar(c) ==> r == Inside(c)
    ensures st.Inside? && IsQuoteChar(c) ==> (r.Outside? <==> c == st.mark)
    ensures st.Inside? && r.Inside? ==> r == st
    ensures Tracked(st) ==> Tracked(r)
  {
    if !IsQuoteChar(c) then st
    else match st
      case Outside => Inside(c)
      case Inside(q) => if c == q then Outside else st
  }

  /** The state after reading all of `s`, starting in `st`. */
  function ScanFrom(st: Quote, s: string): (r: Quote)
    ensures Tracked(st) ==> Tracked(r)
    ensures (forall k :: 0 <= k < |s| ==> !IsQuoteChar(s[k])) ==> r == st
    decreases |s|
  {
    if s == [] then st else ScanFrom(Step(st, s[0]), s[1..])
  }

  /** Scanning a concatenation scans the second half from where the first
      half left the automaton. */
  lemma {:induction false} ScanAppend(st: Quote, a: string, b: string)
    ensures ScanFrom(st, a + b) == ScanFrom(ScanFrom(st, a), b)
    decreases |a|
  {
    if a != [] {
      assert (a + b)[0] == a[0] && (a + b)[1..] == a[1..] + b;
      ScanAppend(Step(st, a[0]), a[1..], b);
    } else {
      assert a + b == b;
    }
  }

  /** Position `i` of `s` is a comma that separates parts when scanning starts in `st`. */
  predicate SplitsAt(st: Quote, s: string, i: int)
    requires 0 <= i < |s|
  {
    s[i] == ',' && ScanFrom(st, s[..i]) == Outside
  }

  predicate NoSplitFrom(st: Quote, s: string) {
    forall i :: 0 <= i < |s| ==> !SplitsAt(st, s, i)
  }

  /** The pieces joined back together with a comma between neighbours. */
  function JoinCommas(pieces: seq<string>): string
    requires |pieces| >= 1
  {
    if |pieces| == 1 then pieces[0] else pieces[0] + "," + JoinCommas(pieces[1..])
  }

  /** `pieces` cuts `s` at exactly its separating commas: joining them gives `s`
      back, no piece holds a separating comma, and each comma between two pieces
      is met outside quotes. */
  predicate IsCommaSplit(s: string, pieces: seq<string>) {
    && |pieces| >= 1
    && JoinCommas(pieces) == s
    && (forall k :: 0 <= k < |pieces| ==> NoSplitFrom(Outside, pieces[k]))
    && (forall k :: 0 <= k < |pieces| - 1 ==> ScanFrom(Outside, pieces[k]) == Outside)
  }

  lemma ScanCons(st: Quote, c: char, s: string)
    ensures ScanFrom(st, [c] + s) == ScanFrom(Step(st, c), s)
  {
    assert ([c] + s)[1..] == s;
  }

  /** Scanning `c` then `s` has a separating comma at `i + 1` exactly when `s` has one at `i`
      after the move on `c`. */
  lemma SplitsAtCons(st: Quote, c: char, s: string, i: int)
    requires 0 <= i < |s|
    ensures SplitsAt(st, [c] + s, i + 1) <==> SplitsAt(Step(st, c), s, i)
  {
    assert ([c] + s)[..i + 1] == [c] + s[..i];
    ScanCons(st, c, s[..i]);
  }

  /** The raw (unstripped) parts of `s`, scanning from state `st`: what the
      loop in the source accumulates, the last part included even when empty. */
  function Pieces(st: Quote, s: string): (r: seq<string>)
    ensures |r| >= 1
    ensures JoinCommas(r) == s
    ensures NoSplitFrom(st, r[0])
    ensures |r| > 1 ==> ScanFrom(st, r[0]) == Outside
    ensures forall k :: 1 <= k < |r| ==> NoSplitFrom(Outside, r[k])
    ensures forall k :: 1 <= k < |r| - 1 ==> ScanFrom(Outside, r[k]) == Outside
    decreases |s|
  {
    if s == [] then [[]]
    else if s[0] == ',' && st == Outside then
      var rest := Pieces(Outside, s[1..]);
      var r := [[]] + rest;
      assert r[1..] == rest;
      assert JoinCommas(r) == [] + "," + JoinCommas(rest);
      assert s == [','] + s[1..];
      r
    else
      var rest := Pieces(Step(st, s[0]), s[1..]);
      var first := [s[0]] + rest[0];
      var r := [first] + rest[1..];
      assert NoSplitFrom(st, first) by {
        forall i | 0 <= i < |first|
          ensures !SplitsAt(st, first, i)
        {
          if i > 0 {
            SplitsAtCons(st, s[0], rest[0], i - 1);
          }
        }
      }
      ScanCons(st, s[0], rest[0]);
      assert JoinCommas(r) == [s[0]] + JoinCommas(rest) by {
        if |rest| > 1 {
          assert r[1..] == rest[1..];
        }
      }
      assert s == [s[0]] + s[1..];
      r
  }

  /** The raw parts of the whole input. */
  function RawPieces(s: string): (r: seq<string>)
    ensures IsCommaSplit(s, r)
  {
    Pieces(Outside, s)
  }

  lemma JoinFirstPrefix(pieces: seq<string>)
    requires |pieces| >= 1
    ensures var s := JoinCommas(pieces);
      |pieces[0]| <= |s| && s[..|pieces[0]|] == pieces[0]
    ensures |pieces| > 1 ==> var s := JoinCommas(pieces);
      |pieces[0]| < |s| && s[|pieces[0]|] == ',' && s[|pieces[0]| + 1..] == JoinCommas(pieces[1..])
    ensures |pieces| == 1 ==> JoinCommas(pieces) == pieces[0]
  {
  }

  /** Only one decomposition of `s` is a comma split: the one the source computes. */
  lemma {:induction false} CommaSplitUnique(s: string, a: seq<string>, b: seq<string>)
    requires IsCommaSplit(s, a) && IsCommaSplit(s, b)
    ensures a == b
    decreases |a|
  {
    JoinFirstPrefix(a);
    JoinFirstPrefix(b);
    var a0, b0 := a[0], b[0];
    if |a0| < |b0| {
      assert |a| > 1;
      assert b0[..|a0|] == a0;
      assert SplitsAt(Outside, b0, |a0|);
      assert false;
    }
    if |b0| < |a0| {
      assert |b| > 1;
      assert a0[..|b0|] == b0;
      assert SplitsAt(Outside, a0, |b0|);
      assert false;
    }
    assert a0 == b0;
    if |a| == 1 || |b| == 1 {
      assert |a| == 1 && |b| == 1;
    } else {
      var rest := s[|a0| + 1..];
      assert IsCommaSplit(rest, a[1..]) by {
        forall k | 0 <= k < |a| - 1 ensures NoSplitFrom(Outside, a[1..][k]) {
          assert a[1..][k] == a[k + 1];
        }
      }
      assert IsCommaSplit(rest, b[1..]) by {
        forall k | 0 <= k < |b| - 1 ensures NoSplitFrom(Outside, b[1..][k]) {
          assert b[1..][k] == b[k + 1];
        }
      }
      CommaSplitUnique(rest, a[1..], b[1..]);
      assert a == [a0] + a[1..];
      assert b == [b0] + b[1..];
    }
  }

  /** `split_by_commas`: the raw parts, stripped, with the last one dropped when
      nothing at all follows the last separating comma. */
  function SplitByCommas(s: string): (parts: seq<string>)
    ensures s == [] ==> parts == []
    ensures forall k :: 0 <= k < |parts| ==> Strip(parts[k]) == parts[k]
  {
    var raw := RawPieces(s);
    var kept := if raw[|raw| - 1] == [] then raw[..|raw| - 1] else raw;
    var parts := seq(|kept|, k requires 0 <= k < |kept| => Strip(kept[k]));
    assert forall k :: 0 <= k < |parts| ==> Strip(parts[k]) == parts[k] by {
      forall k | 0 <= k < |parts| ensures Strip(parts[k]) == parts[k] {
        StripIdempotent(kept[k]);
      }
    }
    parts
  }

  /** Any comma split of the input determines the parts: they are its pieces,
      stripped, the last one kept only when it is not empty. */
  lemma SplitByCommasCharacterized(s: string, pieces: seq<string>)
    requires IsCommaSplit(s, pieces)
    ensures var parts := SplitByCommas(s);
      && |parts| == (if pieces[|pieces| - 1] == [] then |pieces| - 1 else |pieces|)
      && forall k :: 0 <= k < |parts| ==> parts[k] == Strip(pieces[k])
  {
    CommaSplitUnique(s, pieces, RawPieces(s));
  }

  /** A non-empty input always gives at least one part. */
  lemma {:induction false} SplitByCommasNonEmpty(s: string)
    requires s != []
    ensures |SplitByCommas(s)| >= 1
  {
    var raw := RawPieces(s);
    if |raw| == 1 {
      assert raw[0] == s;
    }
  }

  /** Inside a run opened by `q`, no character but `q` changes the state: in
      particular the other kind of quote does not close it. */
  lemma {:induction false} StaysInside(q: char, s: string)
    requires IsQuoteChar(q) && q !in s
    ensures ScanFrom(Inside(q), s) == Inside(q)
    decreases |s|
  {
    if s != [] {
      assert s[0] in s;
      StaysInside(q, s[1..]);
    }
  }

  lemma QuotedRunNoSplit(q: char, body: string)
    requires IsQuoteChar(q) && q !in body
    ensures NoSplitFrom(Outside, [q] + body + [q])
  {
    var s := [q] + body + [q];
    forall i | 0 <= i < |s|
      ensures !SplitsAt(Outside, s, i)
    {
      if 0 < i < |s| - 1 {
        var pre := body[..i - 1];
        assert s[..i] == [q] + pre;
        ScanCons(Outside, q, pre);
        assert q !in pre by {
          assert forall j :: 0 <= j < |pre| ==> pre[j] == body[j];
        }
        StaysInside(q, pre);
      }
    }
  }

  /** Text without a separating comma comes back as one part, stripped. */
  lemma UnsplitIsOnePart(s: string)
    requires s != [] && NoSplitFrom(Outside, s)
    ensures SplitByCommas(s) == [Strip(s)]
  {
    assert JoinCommas([s]) == s;
    assert IsCommaSplit(s, [s]);
    SplitByCommasCharacterized(s, [s]);
    SingletonSeq(SplitByCommas(s), Strip(s));
  }

  lemma SingletonSeq(parts: seq<string>, s: string)
    requires |parts| == 1 && parts[0] == s
    ensures parts == [s]
  {
  }

  /** A quoted run is never split, whatever commas or other quotes it holds. */
  lemma QuotedRunIsOnePart(q: char, body: string)
    requires IsQuoteChar(q) && q !in body
    ensures SplitByCommas([q] + body + [q]) == [[q] + body + [q]]
  {
    var s := [q] + body + [q];
    QuotedRunNoSplit(q, body);
    UnsplitIsOnePart(s);
    StripFixed(s);
  }
}
