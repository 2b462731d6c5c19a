/** Sanitisation of recognised plate text: `re.sub(r'[^A-Z0-9]', '', s.upper())`.
    Upper-casing is modelled for ASCII letters only. */
module PlateText {

  predicate IsLower(c: char) { 'a' <= c <= 'z' }

  /** The plate alphabet A-Z, 0-9. */
  predicate IsPlateChar(c: char) { 'A' <= c <= 'Z' || '0' <= c <= '9' }

  predicate IsPlateText(s: string) {
    forall i :: 0 <= i < |s| ==> IsPlateChar(s[i])
  }

  /** `s` can be obtained from `t` by deleting characters. */
  predicate IsSubsequence(s: string, t: string)
    decreases |t|
  {
    if s == [] then true
    else if t == [] then false
    else (s[0] == t[0] && IsSubsequence(s[1..], t[1..])) || IsSubsequence(s, t[1..])
  }

  function UpperChar(c: char): char {
    if IsLower(c) then (c as int - 32) as char else c
  }

  /** ASCII `str.upper()`: lower-case letters become upper-case, everything else is kept. */
  function Upper(s: string): (r: string)
    ensures |r| == |s|
    ensures forall i :: 0 <= i < |r| ==> !IsLower(r[i])
    ensures forall i :: 0 <= i < |s| && !IsLower(s[i]) ==> r[i] == s[i]
    ensures forall i :: 0 <= i < |s| && IsLower(s[i]) ==> 'A' <= r[i] <= 'Z' && r[i] as int == s[i] as int - 32
  {
    seq(|s|, i requires 0 <= i < |s| => UpperChar(s[i]))
  }

  /** Deletes every character outside A-Z, 0-9 (the `re.sub` with `[^A-Z0-9]`). */
  function Keep(s: string): (r: string)
    ensures IsPlateText(r)
    ensures |r| <= |s|
  {
    if s == [] then []
    else if IsPlateChar(s[0]) then [s[0]] + Keep(s[1..])
    else Keep(s[1..])
  }

  /** `re.sub(r'[^A-Z0-9]', '', s.upper())`, as in `read_plate_chars` and `anpr_system`. */
  function Sanitise(s: string): (r: string)
    ensures IsPlateText(r)
    ensures |r| <= |s|
  {
    Keep(Upper(s))
  }

  lemma {:induction false} KeepIsSubsequence(s: string)
    ensures IsSubsequence(Keep(s), s)
  {
    if s != [] {
      KeepIsSubsequence(s[1..]);
      if IsPlateChar(s[0]) {
        assert ([s[0]] + Keep(s[1..]))[1..] == Keep(s[1..]);
      } else {
        var k := Keep(s[1..]);
        if k != [] {
          assert IsPlateChar(k[0]);
        }
      }
    }
  }

  /** Every plate character of `s` survives, as often as it occurs in `s`. */
  lemma {:induction false} KeepCountsPlateChars(s: string, c: char)
    requires IsPlateChar(c)
    ensures multiset(Keep(s))[c] == multiset(s)[c]
  {
    if s != [] {
      KeepCountsPlateChars(s[1..], c);
      assert s == [s[0]] + s[1..];
      assert multiset(s) == multiset([s[0]]) + multiset(s[1..]);
      if IsPlateChar(s[0]) {
        assert multiset(Keep(s)) == multiset([s[0]]) + multiset(Keep(s[1..]));
      }
    }
  }

  /** Keep leaves a string unchanged exactly when it is already plate text. */
  lemma {:induction false} KeepFixedPoint(s: string)
    ensures Keep(s) == s <==> IsPlateText(s)
  {
    if s != [] {
      KeepFixedPoint(s[1..]);
      if IsPlateText(s) {
        assert IsPlateText(s[1..]) by {
          forall i | 0 <= i < |s[1..]| ensures IsPlateChar(s[1..][i]) {
            assert s[1..][i] == s[i + 1];
          }
        }
        assert s == [s[0]] + s[1..];
      }
    }
  }

  lemma UpperOfPlateText(s: string)
    requires IsPlateText(s)
    ensures Upper(s) == s
  {
  }

  /** The sanitised text is an order-preserving selection from the upper-cased input that keeps
      every plate character and nothing else. */
  lemma SanitiseSelects(s: string)
    ensures IsSubsequence(Sanitise(s), Upper(s))
    ensures forall c :: IsPlateChar(c) ==> multiset(Sanitise(s))[c] == multiset(Upper(s))[c]
    ensures forall c :: !IsPlateChar(c) ==> multiset(Sanitise(s))[c] == 0
  {
    KeepIsSubsequence(Upper(s));
    forall c | IsPlateChar(c) ensures multiset(Sanitise(s))[c] == multiset(Upper(s))[c] {
      KeepCountsPlateChars(Upper(s), c);
    }
  }

  lemma SanitiseIdempotent(s: string)
    ensures Sanitise(Sanitise(s)) == Sanitise(s)
  {
    UpperOfPlateText(Sanitise(s));
    KeepFixedPoint(Sanitise(s));
  }

  /** Sanitising is a no-op exactly on strings that are already plate text. */
  lemma SanitiseFixedPoint(s: string)
    ensures Sanitise(s) == s <==> IsPlateText(s)
  {
    if IsPlateText(s) {
      UpperOfPlateText(s);
      KeepFixedPoint(s);
    }
  }

  lemma SanitiseExample()
    ensures Sanitise("ka-01") == "KA01"
  {
    var u := Upper("ka-01");
    assert u[0] == 'K' && u[1] == 'A' && u[2] == '-' && u[3] == '0' && u[4] == '1';
    assert u == "KA-01";
    assert Keep("-01") == "01";
  }
}
