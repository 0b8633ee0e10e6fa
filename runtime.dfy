/** Whether a show has finished, read from the runtime text of its page
    (for instance "TV Series (2008–2013)" against "TV Series (2008– )"). */
module Runtime {
  import opened Common
  import opened PyStr

  /** The separator between first and last year: U+2013 EN DASH. */
  const EnDash: char := '\U{2013}'

  /** Python's s[start:-2]: from start up to two characters before the end,
      empty once that end lies at or before start. */
  function DropLastTwo(s: string, start: nat): (r: string)
    requires start <= |s|
    ensures |s| - 2 <= start ==> r == []
    ensures start < |s| - 2 ==> r == s[start..|s| - 2]
  {
    var stop := if |s| >= 2 then |s| - 2 else 0;
    if start < stop then s[start..stop] else []
  }

  /** The test runtime[runtime.index('–') + 1:-2].isdigit(): Ok(true) for a
      finished show, Ok(false) for an ongoing one, and the ValueError of
      str.index for a text with no en dash. */
  function IsFinished(runtime: string): (r: Result<bool>)
    ensures r.Err? <==> EnDash !in runtime
    ensures r.Err? ==> r.error == NoEnDash(runtime)
  {
    match IndexOf(runtime, EnDash)
    case None => Err(NoEnDash(runtime))
    case Some(i) => Ok(IsDigits(DropLastTwo(runtime, i + 1)))
  }

  /** With i the position of the first en dash, the show is finished exactly
      when the characters from i + 1 up to two before the end are at least
      one and all digits. */
  lemma FinishedIff(runtime: string, i: nat)
    requires i < |runtime| && runtime[i] == EnDash
    requires forall j :: 0 <= j < i ==> runtime[j] != EnDash
    ensures IsFinished(runtime) == Ok(true) <==>
      i + 1 < |runtime| - 2 && forall k :: i + 1 <= k < |runtime| - 2 ==> IsDigit(runtime[k])
    ensures IsFinished(runtime).Ok?
  {
    assert IndexOf(runtime, EnDash) == Some(i);
    if i + 1 < |runtime| - 2 {
      var m := DropLastTwo(runtime, i + 1);
      assert forall k :: i + 1 <= k < |runtime| - 2 ==> m[k - i - 1] == runtime[k];
    }
  }

  /** An ongoing year range: nothing but the two dropped characters after the
      dash means the slice is empty, and an empty string is not all digits. */
  lemma NothingAfterDashIsOngoing(runtime: string, i: nat)
    requires i < |runtime| && runtime[i] == EnDash
    requires forall j :: 0 <= j < i ==> runtime[j] != EnDash
    requires |runtime| - 2 <= i + 1
    ensures IsFinished(runtime) == Ok(false)
  {
    FinishedIff(runtime, i);
  }

  /** Only what follows the first en dash decides: the characters after it,
      less the last two, must be at least one and all digits. */
  lemma AfterFirstDash(p: string, t: string)
    requires EnDash !in p
    ensures IsFinished(p + [EnDash] + t) == Ok(IsDigits(DropLastTwo(t, 0)))
  {
    var s := p + [EnDash] + t;
    var i := IndexOf(s, EnDash).value;
    assert forall k :: 0 <= k < |p| ==> s[k] == p[k];
    assert s[..|p| + 1][|p|] == EnDash;
    assert i == |p|;
    assert s[i + 1..] == t;
    if |t| >= 2 {
      assert s[i + 1..|s| - 2] == t[..|t| - 2];
    }
  }

  /** A finished show's page text, "TV Series (2008–2013)\n". */
  lemma FinishedExample()
    ensures IsFinished("TV Series (2008" + [EnDash] + "2013)\n") == Ok(true)
  {
    AfterFirstDash("TV Series (2008", "2013)\n");
    assert DropLastTwo("2013)\n", 0) == "2013";
  }

  /** An ongoing show's page text, "TV Series (2008– )\n": a space, not a
      year, follows the dash. */
  lemma OngoingExample()
    ensures IsFinished("TV Series (2008" + [EnDash] + " )\n") == Ok(false)
  {
    AfterFirstDash("TV Series (2008", " )\n");
    assert DropLastTwo(" )\n", 0) == " ";
  }
}
