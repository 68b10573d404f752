/** Text handling of the tag search: Python's `str.split(",")` on the query
    parameter and the normalisation `tag[0].upper() + tag[1:].lower()`,
    with ASCII case mapping. */
module TagText {

  predicate IsLower(c: char) { 'a' <= c <= 'z' }

  predicate IsUpper(c: char) { 'A' <= c <= 'Z' }

  function Upper(c: char): (u: char)
    ensures !IsLower(u)
    ensures IsLower(c) ==> IsUpper(u)
    ensures !IsLower(c) ==> u == c
  {
    if IsLower(c) then (c as int - 32) as char else c
  }

  function Lower(c: char): (l: char)
    ensures !IsUpper(l)
    ensures IsUpper(c) ==> IsLower(l)
    ensures !IsUpper(c) ==> l == c
  {
    if IsUpper(c) then (c as int + 32) as char else c
  }

  function LowerAll(s: string): (r: string)
    ensures |r| == |s|
    ensures forall i :: 0 <= i < |r| ==> r[i] == Lower(s[i])
  {
    seq(|s|, i requires 0 <= i < |s| => Lower(s[i]))
  }

  function LowerEach(parts: seq<string>): (r: seq<string>)
    ensures |r| == |parts|
    ensures forall k :: 0 <= k < |r| ==> r[k] == LowerAll(parts[k])
  {
    seq(|parts|, k requires 0 <= k < |parts| => LowerAll(parts[k]))
  }

  /** Equal up to ASCII case. */
  predicate SameIgnoringCase(a: string, b: string)
  {
    LowerAll(a) == LowerAll(b)
  }

  /** The canonical form a search key takes: first letter capital, every
      other letter small ("Politics"). */
  predicate IsTitleForm(t: string)
  {
    |t| > 0 && !IsLower(t[0]) && forall i :: 1 <= i < |t| ==> !IsUpper(t[i])
  }

  /** `tag[0].upper() + tag[1:].lower()`. Python raises on `tag[0]` of an
      empty tag, hence the precondition. */
  function Normalize(t: string): (r: string)
    requires |t| > 0
    ensures IsTitleForm(r)
    ensures SameIgnoringCase(r, t)
  {
    var r := [Upper(t[0])] + LowerAll(t[1..]);
    assert forall i :: 0 <= i < |r| ==> Lower(r[i]) == Lower(t[i]) by {
      assert Lower(Upper(t[0])) == Lower(t[0]);
    }
    r
  }

  /** Title-form tags are exactly the fixed points of the normalisation. */
  lemma NormalizeFixesTitleForm(t: string)
    requires |t| > 0
    ensures Normalize(t) == t <==> IsTitleForm(t)
  {
    if IsTitleForm(t) {
      assert Normalize(t)[0] == t[0];
      assert forall i :: 1 <= i < |t| ==> Normalize(t)[i] == t[i];
    }
  }

  /** Normalising twice is normalising once. */
  lemma NormalizeIdempotent(t: string)
    requires |t| > 0
    ensures Normalize(Normalize(t)) == Normalize(t)
  {
    NormalizeFixesTitleForm(Normalize(t));
  }

  /** The normalisation looks only at the letters, not at their case. */
  lemma NormalizeIgnoresCase(a: string, b: string)
    requires |a| > 0 && SameIgnoringCase(a, b)
    ensures |b| > 0 && Normalize(a) == Normalize(b)
  {
    assert |LowerAll(a)| == |LowerAll(b)|;
    assert Lower(a[0]) == Lower(b[0]);
    assert Upper(a[0]) == Upper(b[0]) by {
      CaseOfChar(a[0]);
      CaseOfChar(b[0]);
    }
    forall i | 1 <= i < |a|
      ensures Lower(a[i]) == Lower(b[i])
    {
      assert LowerAll(a)[i] == LowerAll(b)[i];
    }
  }

  /** Upper-casing a letter depends only on its lower-case form. */
  lemma CaseOfChar(c: char)
    ensures Upper(c) == Upper(Lower(c))
  {
    if IsUpper(c) {
      assert Lower(c) as int == c as int + 32;
    }
  }

  /** Every case spelling of "politics" normalises to "Politics". */
  lemma PoliticsExample(t: string)
    requires SameIgnoringCase(t, "politics")
    ensures Normalize(t) == "Politics"
  {
    assert |t| == |LowerAll(t)| == 8;
    NormalizeIgnoresCase("politics", t);
    NormalizePolitics();
  }

  lemma NormalizePolitics()
    ensures Normalize("politics") == "Politics"
  {
    assert "politics"[1..] == "olitics";
    assert LowerAll("olitics") == "olitics";
  }

  /** Python's `s.split(sep)`: the pieces between occurrences of `sep`,
      empty pieces included; the empty text gives one empty piece. */
  function Split(s: string, sep: char): (parts: seq<string>)
    ensures |parts| >= 1
    ensures forall k :: 0 <= k < |parts| ==> sep !in parts[k]
  {
    if s == [] then [""]
    else
      var rest := Split(s[1..], sep);
      if s[0] == sep then [""] + rest
      else [[s[0]] + rest[0]] + rest[1..]
  }

  /** `sep.join(parts)`, the inverse of `Split`. */
  function Join(parts: seq<string>, sep: char): string
    requires |parts| >= 1
  {
    if |parts| == 1 then parts[0] else parts[0] + [sep] + Join(parts[1..], sep)
  }

  /** Joining the pieces gives back the query text. */
  lemma {:induction false} JoinSplit(s: string, sep: char)
    ensures Join(Split(s, sep), sep) == s
  {
    if s != [] {
      var rest := Split(s[1..], sep);
      JoinSplit(s[1..], sep);
      if s[0] == sep {
        assert s == [sep] + s[1..];
      } else {
        if |rest| == 1 {
          assert s == [s[0]] + rest[0];
        } else {
          assert rest == [rest[0]] + rest[1..];
          assert s == [s[0]] + (rest[0] + [sep] + Join(rest[1..], sep));
        }
      }
    }
  }

  /** Splitting a join of separator-free pieces gives back the pieces. */
  lemma {:induction false} SplitJoin(parts: seq<string>, sep: char)
    requires |parts| >= 1
    requires forall k :: 0 <= k < |parts| ==> sep !in parts[k]
    ensures Split(Join(parts, sep), sep) == parts
  {
    if |parts| == 1 {
      SplitPrefix(parts[0], [], sep);
      assert parts[0] + [] == parts[0];
      assert Split([], sep) == [""];
      assert parts[0] + "" == parts[0];
    } else {
      var tail := Join(parts[1..], sep);
      SplitJoin(parts[1..], sep);
      assert ([sep] + tail)[1..] == tail;
      assert Split([sep] + tail, sep) == [""] + parts[1..];
      SplitPrefix(parts[0], [sep] + tail, sep);
      assert parts[0] + [sep] + tail == parts[0] + ([sep] + tail);
      assert parts[0] + "" == parts[0];
      assert parts == [parts[0]] + parts[1..];
    }
  }

  /** A separator-free prefix glues onto the first piece of what follows. */
  lemma {:induction false} SplitPrefix(piece: string, rest: string, sep: char)
    requires sep !in piece
    ensures var after := Split(rest, sep);
      Split(piece + rest, sep) == [piece + after[0]] + after[1..]
  {
    var after := Split(rest, sep);
    if piece == [] {
      assert piece + rest == rest;
      assert piece + after[0] == after[0];
      assert after == [after[0]] + after[1..];
    } else {
      SplitPrefix(piece[1..], rest, sep);
      var whole := piece + rest;
      assert whole[0] == piece[0] != sep;
      assert whole[1..] == piece[1..] + rest;
      var inner := Split(piece[1..] + rest, sep);
      assert inner[0] == piece[1..] + after[0] && inner[1..] == after[1..];
      assert Split(whole, sep) == [[piece[0]] + inner[0]] + inner[1..];
      assert [piece[0]] + (piece[1..] + after[0]) == piece + after[0];
    }
  }

  /** Splitting commutes with lower-casing, since the separator `,` has no
      case. */
  lemma {:induction false} SplitLowerAll(s: string)
    ensures Split(LowerAll(s), ',') == LowerEach(Split(s, ','))
  {
    if s != [] {
      SplitLowerAll(s[1..]);
      assert LowerAll(s)[1..] == LowerAll(s[1..]);
      var rest := Split(s[1..], ',');
      if s[0] != ',' {
        assert LowerAll([s[0]] + rest[0]) == [Lower(s[0])] + LowerAll(rest[0]);
      }
    }
  }
}
