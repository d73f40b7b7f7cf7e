/** Title normalisation used by the exact-title guard: JavaScript's
    `trim()` followed by `toLowerCase()`, compared with `===`. */
module Text {

  /** The code points ECMAScript counts as WhiteSpace or LineTerminator,
      which are what `String.prototype.trim` strips from both ends. */
  predicate IsSpace(c: char)
  {
    || c == '\t' || c == '\n' || c == '\U{000B}' || c == '\U{000C}' || c == '\r' || c == ' '
    || c == '\U{00A0}' || c == '\U{1680}' || ('\U{2000}' <= c <= '\U{200A}')
    || c == '\U{2028}' || c == '\U{2029}' || c == '\U{202F}' || c == '\U{205F}'
    || c == '\U{3000}' || c == '\U{FEFF}'
  }

  /** Drops leading white space. */
  function TrimStart(s: string): string
  {
    if s != [] && IsSpace(s[0]) then TrimStart(s[1..]) else s
  }

  /** Drops trailing white space. */
  function TrimEnd(s: string): string
  {
    if s != [] && IsSpace(s[|s| - 1]) then TrimEnd(s[..|s| - 1]) else s
  }

  function Trim(s: string): string
  {
    TrimEnd(TrimStart(s))
  }

  /** Trimming keeps a contiguous part of the string that neither starts
      nor ends with white space, and everything it drops is white space. */
  lemma {:induction false} TrimKeepsCore(s: string)
    ensures exists lo, hi ::
      && 0 <= lo <= hi <= |s| && Trim(s) == s[lo..hi]
      && (forall i :: 0 <= i < lo ==> IsSpace(s[i]))
      && (forall i :: hi <= i < |s| ==> IsSpace(s[i]))
    ensures Trim(s) == [] || (!IsSpace(Trim(s)[0]) && !IsSpace(Trim(s)[|Trim(s)| - 1]))
  {
    var lo := TrimStartCut(s);
    var rest := s[lo..];
    var hi := TrimEndCut(rest);
    assert Trim(s) == s[lo..lo + hi];
    if Trim(s) != [] {
      assert !IsSpace(Trim(s)[|Trim(s)| - 1]);
      assert Trim(s)[0] == rest[0];
    }
  }

  lemma {:induction false} TrimStartCut(s: string) returns (lo: nat)
    ensures lo <= |s| && TrimStart(s) == s[lo..]
    ensures forall i :: 0 <= i < lo ==> IsSpace(s[i])
    ensures lo == |s| || !IsSpace(s[lo])
  {
    if s != [] && IsSpace(s[0]) {
      var k := TrimStartCut(s[1..]);
      lo := k + 1;
    } else {
      lo := 0;
    }
  }

  lemma {:induction false} TrimEndCut(s: string) returns (hi: nat)
    ensures hi <= |s| && TrimEnd(s) == s[..hi]
    ensures forall i :: hi <= i < |s| ==> IsSpace(s[i])
    ensures hi == 0 || !IsSpace(s[hi - 1])
  {
    if s != [] && IsSpace(s[|s| - 1]) {
      hi := TrimEndCut(s[..|s| - 1]);
    } else {
      hi := |s|;
    }
  }

  predicate IsUpper(c: char)
  {
    ('A' <= c <= 'Z') || ('\U{00C0}' <= c <= '\U{00DE}' && c != '\U{00D7}')
  }

  /** Lower-cases the ASCII and Latin-1 capitals (each small letter is 32
      code points above its capital); every other character is left alone.
      No capital survives, and white space stays white space and nothing
      else becomes it. */
  function LowerChar(c: char): (l: char)
    ensures !IsUpper(l)
    ensures IsSpace(l) <==> IsSpace(c)
    ensures !IsUpper(c) ==> l == c
  {
    if IsUpper(c) then (c as int + 32) as char else c
  }

  /** `toLowerCase()`: the same length, no capital left, and white space
      exactly where the original had it. */
  function Lower(s: string): (r: string)
    ensures |r| == |s|
    ensures forall i :: 0 <= i < |r| ==> !IsUpper(r[i])
    ensures forall i :: 0 <= i < |r| ==> (IsSpace(r[i]) <==> IsSpace(s[i]))
  {
    seq(|s|, i requires 0 <= i < |s| => LowerChar(s[i]))
  }

  /** Lower-casing a lower-cased string changes nothing. */
  lemma LowerIdempotent(s: string)
    ensures Lower(Lower(s)) == Lower(s)
  {
    forall i | 0 <= i < |s|
      ensures Lower(Lower(s))[i] == Lower(s)[i]
    {
    }
  }

  /** Trimming and lower-casing commute: lower-casing neither creates nor
      removes white space at the ends. */
  lemma {:induction false} TrimStartLower(s: string)
    ensures TrimStart(Lower(s)) == Lower(TrimStart(s))
  {
    if s != [] && IsSpace(s[0]) {
      assert Lower(s)[1..] == Lower(s[1..]);
      TrimStartLower(s[1..]);
    }
  }

  lemma {:induction false} TrimEndLower(s: string)
    ensures TrimEnd(Lower(s)) == Lower(TrimEnd(s))
  {
    if s != [] && IsSpace(s[|s| - 1]) {
      assert Lower(s)[..|s| - 1] == Lower(s[..|s| - 1]);
      TrimEndLower(s[..|s| - 1]);
    }
  }

  lemma TrimLower(s: string)
    ensures Trim(Lower(s)) == Lower(Trim(s))
  {
    TrimStartLower(s);
    TrimEndLower(TrimStart(s));
  }

  /** Two titles that differ only in letter case name the same title. */
  lemma CaseIgnored(a: string, b: string)
    requires Lower(a) == Lower(b)
    ensures SameTitle(a, b)
  {
    TrimLower(a);
    TrimLower(b);
  }

  /** The normalised key is its own key: trimming a trimmed title and
      lower-casing a lower-cased one change nothing. */
  lemma NormalizeIdempotent(s: string)
    ensures Normalize(Normalize(s)) == Normalize(s)
  {
    var t := Trim(s);
    TrimKeepsCore(s);
    if t != [] {
      TrimStartPadding([], t);
      TrimEndPadding(t, []);
      assert [] + t == t && t + [] == t;
    }
    assert Trim(t) == t;
    TrimLower(t);
    LowerIdempotent(t);
  }

  /** The key two titles are compared on: `s.trim().toLowerCase()`. */
  function Normalize(s: string): string
  {
    Lower(Trim(s))
  }

  predicate SameTitle(a: string, b: string)
  {
    Normalize(a) == Normalize(b)
  }

  /** Lower-casing never changes a length, so two titles whose trimmed
      lengths differ never match, whatever their letters: a query and a
      longer title that merely starts with it ("Alien" and "Aliens") are
      told apart. */
  lemma LengthMismatchNeverSame(a: string, b: string)
    requires |Trim(a)| != |Trim(b)|
    ensures !SameTitle(a, b)
  {
  }

  /** Surrounding white space does not affect a match and capitals are
      lowered: a word padded with white space normalises to the word
      lower-cased, so its padded and bare spellings match. */
  lemma {:induction false} PaddingIgnored(pre: string, word: string, post: string)
    requires forall i :: 0 <= i < |pre| ==> IsSpace(pre[i])
    requires forall i :: 0 <= i < |post| ==> IsSpace(post[i])
    requires word != [] && !IsSpace(word[0]) && !IsSpace(word[|word| - 1])
    ensures Normalize(pre + word + post) == Lower(word)
    ensures SameTitle(pre + word + post, word)
  {
    var s := pre + word + post;
    TrimStartPadding(pre, word + post);
    assert pre + (word + post) == s;
    TrimEndPadding(word, post);
    TrimStartPadding([], word);
    TrimEndPadding(word, []);
    assert [] + word == word && word + [] == word;
  }

  lemma {:induction false} TrimStartPadding(pre: string, rest: string)
    requires forall i :: 0 <= i < |pre| ==> IsSpace(pre[i])
    requires rest == [] || !IsSpace(rest[0])
    ensures TrimStart(pre + rest) == rest
  {
    if pre != [] {
      assert (pre + rest)[1..] == pre[1..] + rest;
      TrimStartPadding(pre[1..], rest);
    } else {
      assert pre + rest == rest;
    }
  }

  lemma {:induction false} TrimEndPadding(rest: string, post: string)
    requires forall i :: 0 <= i < |post| ==> IsSpace(post[i])
    requires rest == [] || !IsSpace(rest[|rest| - 1])
    ensures TrimEnd(rest + post) == rest
  {
    if post != [] {
      assert (rest + post)[..|rest + post| - 1] == rest + post[..|post| - 1];
      TrimEndPadding(rest, post[..|post| - 1]);
    } else {
      assert rest + post == rest;
    }
  }


}
