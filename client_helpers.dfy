/** The string computations of the character-sheet page script (SE.js): reading the
    CSRF token out of the cookie string, the signed text shown for an ability
    modifier, and the id of the modifier badge that belongs to an input. */
module ClientHelpers {
  import opened Wrappers
  import opened Strings

  /** What `get_csrf_token` searches the cookie string for. */
  const CsrfName: string := "csrftoken="

  /** `get_csrf_token`: the text after the first raw occurrence of `csrftoken=` up to the
      next `;` (or the end of the string); "" when there is no occurrence. */
  function CsrfToken(cookie: string): (r: string)
    ensures ';' !in r
  {
    var start := IndexOf(cookie, CsrfName, 0);
    if start == -1 then ""
    else
      var end := IndexOf(cookie, ";", start);
      NoSemicolonInName(cookie, start);
      if end == -1 then
        NoSemicolonFrom(cookie, start + |CsrfName|, |cookie|);
        SubstringFrom(cookie, start + |CsrfName|)
      else
        OccursAtChar(cookie, ';', end);
        NoSemicolonFrom(cookie, start + |CsrfName|, end);
        Substring(cookie, start + |CsrfName|, end)
  }

  /** The characters of `csrftoken=` are never `;`, so the search for `;` started at
      the name finds nothing inside the name itself. */
  lemma NoSemicolonInName(cookie: string, start: nat)
    requires OccursAt(cookie, CsrfName, start)
    ensures forall k: nat :: start <= k < start + |CsrfName| ==> !OccursAt(cookie, ";", k)
  {
    forall k: nat | start <= k < start + |CsrfName|
      ensures !OccursAt(cookie, ";", k)
    {
      OccursAtChar(cookie, ';', k);
      assert cookie[k] == CsrfName[k - start];
    }
  }

  /** No `;` is found in `[lo, hi)` when the search from below `lo` found none there. */
  lemma NoSemicolonFrom(cookie: string, lo: nat, hi: nat)
    requires lo <= hi <= |cookie|
    requires forall k: nat :: lo <= k < hi ==> !OccursAt(cookie, ";", k)
    ensures ';' !in cookie[lo..hi]
  {
    forall k | lo <= k < hi ensures cookie[k] != ';' {
      OccursAtChar(cookie, ';', k);
    }
  }

  /** `k` is the first place `csrftoken=` occurs in `cookie`. */
  ghost predicate FirstNameAt(cookie: string, k: nat) {
    OccursAt(cookie, CsrfName, k) && forall j: nat :: j < k ==> !OccursAt(cookie, CsrfName, j)
  }

  lemma CsrfTokenAbsent(cookie: string)
    requires !Contains(cookie, CsrfName)
    ensures CsrfToken(cookie) == ""
  {
  }

  /** With no `;` after the first `csrftoken=`, the token is the whole rest of the string. */
  lemma CsrfTokenUnterminated(cookie: string, k: nat)
    requires FirstNameAt(cookie, k)
    requires ';' !in cookie[k + |CsrfName|..]
    ensures CsrfToken(cookie) == cookie[k + |CsrfName|..]
  {
    IndexOfIs(cookie, CsrfName, 0, k);
    NoSemicolonInName(cookie, k);
    forall j: nat | k + |CsrfName| <= j ensures !OccursAt(cookie, ";", j) {
      OccursAtChar(cookie, ';', j);
      if j < |cookie| {
        assert cookie[j] == cookie[k + |CsrfName|..][j - k - |CsrfName|];
      }
    }
    IndexOfIs(cookie, ";", k, -1);
  }

  /** Otherwise the token is exactly the text between the name and the next `;`. */
  lemma CsrfTokenTerminated(cookie: string, k: nat, e: nat)
    requires FirstNameAt(cookie, k)
    requires k + |CsrfName| <= e < |cookie| && cookie[e] == ';'
    requires ';' !in cookie[k + |CsrfName|..e]
    ensures CsrfToken(cookie) == cookie[k + |CsrfName|..e]
  {
    IndexOfIs(cookie, CsrfName, 0, k);
    NoSemicolonInName(cookie, k);
    OccursAtChar(cookie, ';', e);
    forall j: nat | k + |CsrfName| <= j < e ensures !OccursAt(cookie, ";", j) {
      OccursAtChar(cookie, ';', j);
      assert cookie[j] == cookie[k + |CsrfName|..e][j - k - |CsrfName|];
    }
    IndexOfIs(cookie, ";", k, e);
  }

  /** `csrftoken=` cannot overlap a later copy of itself: only its first letter is `c`. */
  lemma NameDoesNotOverlap(cookie: string, j: nat, k: nat)
    requires OccursAt(cookie, CsrfName, k)
    requires j < k < j + |CsrfName|
    ensures !OccursAt(cookie, CsrfName, j)
  {
    assert cookie[k] == cookie[k..k + |CsrfName|][0] == 'c';
    assert CsrfName[k - j] != 'c' by {
      assert 'c' !in CsrfName[1..];
      assert CsrfName[k - j] == CsrfName[1..][k - j - 1];
    }
    if j + |CsrfName| <= |cookie| {
      assert cookie[j..j + |CsrfName|][k - j] == cookie[k];
    }
  }

  /** Round trip: a cookie string built as `p + "csrftoken=" + v + s`, where `p` holds no
      `csrftoken=`, `v` no `;`, and `s` is empty or starts a new `;`-separated entry,
      yields `v`. */
  lemma CsrfTokenRoundTrip(p: string, v: string, s: string)
    requires !Contains(p, CsrfName)
    requires ';' !in v
    requires s == "" || s[0] == ';'
    ensures CsrfToken(p + CsrfName + v + s) == v
  {
    var cookie := p + CsrfName + v + s;
    var k := |p|;
    assert cookie[k..k + |CsrfName|] == CsrfName;
    forall j: nat | j < k ensures !OccursAt(cookie, CsrfName, j) {
      if j + |CsrfName| <= k {
        assert cookie[j..j + |CsrfName|] == p[j..j + |CsrfName|];
        assert !OccursAt(p, CsrfName, j);
      } else {
        NameDoesNotOverlap(cookie, j, k);
      }
    }
    assert cookie[k + |CsrfName|..k + |CsrfName| + |v|] == v;
    if s == "" {
      assert cookie[k + |CsrfName|..] == v;
      CsrfTokenUnterminated(cookie, k);
    } else {
      assert cookie[k + |CsrfName| + |v|] == s[0];
      CsrfTokenTerminated(cookie, k, k + |CsrfName| + |v|);
    }
  }

  /** Matching is by raw substring: a cookie named `xcsrftoken` that comes first wins
      over the real `csrftoken` entry. */
  lemma CsrfTokenMatchesInsideOtherName()
    ensures CsrfToken("xcsrftoken=a; csrftoken=b") == "a"
  {
    assert "xcsrftoken=a; csrftoken=b" == "x" + CsrfName + "a" + "; csrftoken=b";
    CsrfTokenRoundTrip("x", "a", "; csrftoken=b");
  }

  /** The text `adjust_mod` shows for a modifier: a leading `+` exactly when it is not
      negative; a negative value is shown as JavaScript writes it. */
  function ModifierText(mod: int): (r: string)
    ensures |r| > 0
    ensures r[0] == '+' <==> mod >= 0
    ensures mod < 0 ==> r == IntToString(mod)
  {
    if mod >= 0 then "+" + IntToString(mod) else IntToString(mod)
  }

  /** The shown text reads back as the modifier it came from. */
  lemma ModifierTextRoundTrip(mod: int)
    ensures ParseSigned(ModifierText(mod)) == Some(mod)
  {
    if mod >= 0 {
      PlusIntToStringRoundTrip(mod);
    } else {
      IntToStringRoundTrip(mod);
    }
  }

  /** `this.id.replace("_", "_mod_")`: the badge id for an input id, with only the
      first underscore replaced. */
  function ModId(id: string): (r: string)
    ensures '_' !in id ==> r == id
    ensures forall k :: 0 <= k < |id| && id[k] == '_' && '_' !in id[..k] ==> r == id[..k] + "_mod_" + id[k + 1..]
  {
    ReplaceFirst(id, '_', "_mod_")
  }

  lemma ModIdOfStrength()
    ensures ModId("id_strength") == "id_mod_strength"
  {
    var id := "id_strength";
    assert id[2] == '_' && '_' !in id[..2];
    assert id[..2] + "_mod_" + id[3..] == "id_mod_strength";
  }
}
