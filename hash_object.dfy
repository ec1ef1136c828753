/**
 * HashObject: one table entry, a key with a duplicate counter (frequency)
 * and a probe counter, both Java ints updated in place.
 */
module HashObjects {
  import opened Wrappers
  import opened JavaLang

  /**
   * Reads back the text produced by HashObject.toString: the key's text, the
   * frequency and the probe count, taking the last two space-separated
   * fields as the numbers so that the key's text may itself contain spaces.
   */
  function ReadFields(s: string): Option<(string, int, int)>
  {
    match SplitAtLastSpace(s)
    case None => None
    case Some((rest, probes)) =>
      match SplitAtLastSpace(rest)
      case None => None
      case Some((keyText, frequency)) =>
        match (ParseInt(frequency), ParseInt(probes))
        case (Some(f), Some(p)) => Some((keyText, f, p))
        case _ => None
  }

  class HashObject<K(==,!new)> {
    /** Set once by the constructor; getKey is the read of this field. */
    const key: K
    var frequencyCount: int32
    var probeCount: int32

    /** A new entry for key: frequency 1, probe count 0. */
    constructor (key: K)
      ensures this.key == key && frequencyCount == 1 && probeCount == 0
    {
      this.key := key;
      frequencyCount := 1;
      probeCount := 0;
    }

    /** incrementFrequency: one more occurrence (Java `++`, wrapping at the int limit). */
    method IncrementFrequency()
      modifies this
      ensures frequencyCount == Inc(old(frequencyCount)) && probeCount == old(probeCount)
    {
      frequencyCount := Inc(frequencyCount);
    }

    /** setProbeCount: overwrites the probe count only. */
    method SetProbeCount(probeCount: int32)
      modifies this
      ensures this.probeCount == probeCount && frequencyCount == old(frequencyCount)
    {
      this.probeCount := probeCount;
    }

    /**
     * The probe-count increment that Hashtable.insert and Hashtable.search
     * call (`incrementProbeCount`); HashObject.java declares only
     * setProbeCount, so this is setProbeCount(probeCount + 1).
     */
    method IncrementProbeCount()
      modifies this
      ensures probeCount == Inc(old(probeCount)) && frequencyCount == old(frequencyCount)
    {
      SetProbeCount(Inc(probeCount));
    }

    /**
     * equals: true for itself, false for null, otherwise whether the keys are
     * equal (key.equals is modelled as Dafny equality); the counters play no part.
     */
    function Equals(other: HashObject?<K>): (r: bool)
      ensures r <==> other != null && other.key == key
    {
      if this == other then true
      else if other == null then false
      else key == other.key
    }

    /**
     * toString: the key's text (`show` stands for key.toString()), a space,
     * the frequency, a space, the probe count. Reading the fields back gives
     * exactly those three values.
     */
    function ToString(show: K -> string): (r: string)
      reads this
      ensures ReadFields(r) == Some((show(key), frequencyCount as int, probeCount as int))
    {
      var f, p := IntToString(frequencyCount), IntToString(probeCount);
      SplitAfterSpace(show(key) + " " + f, p);
      SplitAfterSpace(show(key), f);
      ParseIntToString(frequencyCount);
      ParseIntToString(probeCount);
      show(key) + " " + f + " " + p
    }
  }
}
