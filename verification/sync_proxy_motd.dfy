/** `SyncProxyMotd`: a proxy's message of the day and the placeholder
    substitution applied to each of its lines before it is shown. */
module SyncProxyMotd {

  import opened Wrappers
  import opened Text

  /** The configured MOTD. Its getters and setters are plain field access. */
  datatype Motd = Motd(
    firstLine: string,
    secondLine: string,
    autoSlot: bool,
    autoSlotMaxPlayersDistance: int,
    playerInfo: seq<string>,
    protocolText: string)

  /** The running proxy's service id, which the source reads from the
      process-wide `Wrapper` instance; here it is passed in. */
  datatype ServiceId = ServiceId(name: string, uniqueId: string, taskName: string, nodeUniqueId: string)

  /** The six placeholder substitutions, in the source's order; each is a
      replace-all, and later steps also see the text earlier steps inserted. */
  function FillPlaceholders(input: string, onlinePlayers: int, maxPlayers: int, service: ServiceId): string {
    var s1 := ReplaceAll(input, "%proxy%", service.name);
    var s2 := ReplaceAll(s1, "%proxy_uniqueId%", service.uniqueId);
    var s3 := ReplaceAll(s2, "%task%", service.taskName);
    var s4 := ReplaceAll(s3, "%node%", service.nodeUniqueId);
    var s5 := ReplaceAll(s4, "%online_players%", IntToDecimal(onlinePlayers));
    ReplaceAll(s5, "%max_players%", IntToDecimal(maxPlayers))
  }

  /** `format`: null stays null; otherwise the placeholders are filled and
      then every `&` becomes the colour-code sign `§`, so no `&` survives. */
  function Format(input: Option<string>, onlinePlayers: int, maxPlayers: int, service: ServiceId): (r: Option<string>)
    ensures r.None? <==> input.None?
    ensures r.Some? ==> '&' !in r.value
    ensures r.Some? ==>
      var filled := FillPlaceholders(input.value, onlinePlayers, maxPlayers, service);
      |r.value| == |filled|
      && forall i :: 0 <= i < |filled| ==> r.value[i] == (if filled[i] == '&' then '§' else filled[i])
  {
    match input
    case None => None
    case Some(s) =>
      var filled := FillPlaceholders(s, onlinePlayers, maxPlayers, service);
      ReplaceCharPointwise(filled, '&', '§');
      ReplaceCharRemoves(filled, '&', '§');
      Some(ReplaceAll(filled, "&", "§"))
  }

  /** A line containing neither `%` nor `&` is returned unchanged. */
  lemma FormatPlainLine(s: string, onlinePlayers: int, maxPlayers: int, service: ServiceId)
    requires '%' !in s && '&' !in s
    ensures Format(Some(s), onlinePlayers, maxPlayers, service) == Some(s)
  {
    PlainLineUntouched(s, onlinePlayers, maxPlayers, service);
    ReplaceAllAbsent(s, "&", "§");
  }

  /** Every placeholder starts with `%`, so a line without `%` has nothing
      to fill. */
  lemma PlainLineUntouched(s: string, onlinePlayers: int, maxPlayers: int, service: ServiceId)
    requires '%' !in s
    ensures FillPlaceholders(s, onlinePlayers, maxPlayers, service) == s
  {
    ReplaceAllAbsent(s, "%proxy%", service.name);
    ReplaceAllAbsent(s, "%proxy_uniqueId%", service.uniqueId);
    ReplaceAllAbsent(s, "%task%", service.taskName);
    ReplaceAllAbsent(s, "%node%", service.nodeUniqueId);
    ReplaceAllAbsent(s, "%online_players%", IntToDecimal(onlinePlayers));
    ReplaceAllAbsent(s, "%max_players%", IntToDecimal(maxPlayers));
  }
}
