/** The source choice in `ndi_connect`, once discovery has advertised at least one source. */
module Connect {
  import opened Wrappers

  /** An advertised NDI source; only its name takes part in the choice. */
  datatype Source = Source(ndiName: string)

  /** Whether `source_name` is truthy in Python: given and not the empty string. */
  predicate Named(sourceName: Option<string>) {
    sourceName.Some? && sourceName.value != ""
  }

  ghost predicate Advertised(sources: seq<Source>, name: string) {
    exists k :: 0 <= k < |sources| && sources[k].ndiName == name
  }

  /** `next((src for src in sources if src.ndi_name == name), None)`, as a position. */
  function FirstMatch(sources: seq<Source>, name: string): (r: Option<nat>)
    ensures r.None? <==> !Advertised(sources, name)
    ensures r.Some? ==> r.value < |sources| && sources[r.value].ndiName == name
    ensures r.Some? ==> forall k :: 0 <= k < r.value ==> sources[k].ndiName != name
    decreases |sources|
  {
    if sources == [] then None
    else if sources[0].ndiName == name then Some(0)
    else
      match FirstMatch(sources[1..], name)
      case Some(k) => Some(k + 1)
      case None => None
  }

  /** The source `ndi_connect` connects to, and whether it logged the "not found, using first
      source" warning. */
  datatype Selection = Selection(index: nat, fellBack: bool)

  function SelectSource(sources: seq<Source>, sourceName: Option<string>): (r: Selection)
    requires sources != []
    ensures r.index < |sources|
    ensures r.fellBack <==> Named(sourceName) && !Advertised(sources, sourceName.value)
    ensures Named(sourceName) && Advertised(sources, sourceName.value) ==>
      sources[r.index].ndiName == sourceName.value &&
      forall k :: 0 <= k < r.index ==> sources[k].ndiName != sourceName.value
    ensures !(Named(sourceName) && Advertised(sources, sourceName.value)) ==> r.index == 0
  {
    if Named(sourceName) then
      match FirstMatch(sources, sourceName.value)
      case Some(k) => Selection(k, false)
      case None => Selection(0, true)
    else
      Selection(0, false)
  }
}
