/** Whether the PSIP plan is enforced: the `USE_PSIP_PLAN` environment
    value, when present, overrides the `--psip-force` / `--psip-relax` option. */
module PolicyFlags {
  import opened Common
  import opened TechNames

  const TrueWords: seq<string> := ["1", "true", "y", "yes", "on"]
  const FalseWords: seq<string> := ["0", "false", "n", "no", "off"]

  /** `env` is the environment value (None when unset); `psipForce` is the
      command-line option. An unrecognised value is a fatal error. */
  function ResolvePsip(env: Option<string>, psipForce: bool): (r: Result<bool>)
    ensures r.Err? ==> env.Some? && r.error == UnrecognizedPsipValue(env.value)
  {
    match env
    case None => Ok(psipForce)
    case Some(v) =>
      if Lower(v) in TrueWords then Ok(true)
      else if Lower(v) in FalseWords then Ok(false)
      else Err(UnrecognizedPsipValue(v))
  }

  /** No word reads as both true and false. */
  lemma WordListsDisjoint()
    ensures forall w :: w in TrueWords ==> w !in FalseWords
  {
  }

  /** The three outcomes: the option when the variable is unset; true for
      exactly the true words and false for exactly the false words (in any
      case); a fatal error naming the value for everything else. */
  lemma ResolvePsipOutcomes(env: Option<string>, psipForce: bool)
    ensures env.None? ==> ResolvePsip(env, psipForce) == Ok(psipForce)
    ensures env.Some? ==>
      (ResolvePsip(env, psipForce) == Ok(true) <==> Lower(env.value) in TrueWords)
    ensures env.Some? ==>
      (ResolvePsip(env, psipForce) == Ok(false) <==> Lower(env.value) in FalseWords)
    ensures env.Some? ==>
      (ResolvePsip(env, psipForce).Err? <==> Lower(env.value) !in TrueWords + FalseWords)
    ensures ResolvePsip(env, psipForce).Err? ==>
      ResolvePsip(env, psipForce).error == UnrecognizedPsipValue(env.value)
  {
    WordListsDisjoint();
  }

  /** Two values that differ only in ASCII case resolve alike. */
  lemma ResolvePsipIgnoresCase(v: string, w: string, psipForce: bool)
    requires Lower(v) == Lower(w)
    ensures ResolvePsip(Some(v), psipForce).Ok? == ResolvePsip(Some(w), psipForce).Ok?
    ensures ResolvePsip(Some(v), psipForce).Ok? ==>
      ResolvePsip(Some(v), psipForce).value == ResolvePsip(Some(w), psipForce).value
  {
  }

  /** In particular a value resolves as its lower-cased form does. */
  lemma ResolvePsipOfLowered(v: string, psipForce: bool)
    ensures ResolvePsip(Some(v), psipForce).Ok? == ResolvePsip(Some(Lower(v)), psipForce).Ok?
    ensures ResolvePsip(Some(v), psipForce).Ok? ==>
      ResolvePsip(Some(v), psipForce).value == ResolvePsip(Some(Lower(v)), psipForce).value
  {
    LowerIdempotent(v);
    ResolvePsipIgnoresCase(v, Lower(v), psipForce);
  }
}
