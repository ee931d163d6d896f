/** The `game_settings` table: a name-keyed upsert, lookup and deletion. */
module Settings {
  import opened Wrappers
  import opened Seqs
  import opened Tables

  /** Python's truth test on an optional string: present and not empty. */
  predicate Truthy(description: Option<string>)
  {
    description.Some? && description.value != ""
  }

  /**
    `add_setting`: when a row with this name exists, its id is returned, its
    value replaced, and its description replaced only by a truthy one;
    otherwise one row is inserted with the next id and the description as
    given.
   */
  function AddSetting(s: Store, name: string, value: string, description: Option<string>): (r: Outcome<int>)
    ensures r.store == s.(settings := r.store.settings, nextSettingId := r.store.nextSettingId)
    ensures HasSettingName(s.settings, name) ==>
              && r.value == SettingByName(s.settings, name).value.id
              && r.store.nextSettingId == s.nextSettingId
              && |r.store.settings| == |s.settings|
              && forall i :: 0 <= i < |s.settings| ==>
                   r.store.settings[i] ==
                     if s.settings[i].id != r.value then s.settings[i]
                     else s.settings[i].(value := value,
                                         description := if Truthy(description) then description else s.settings[i].description)
    ensures !HasSettingName(s.settings, name) ==>
              && r.value == s.nextSettingId
              && r.store.settings == s.settings + [Setting(s.nextSettingId, name, value, description)]
              && r.store.nextSettingId == s.nextSettingId + 1
  {
    match SettingByName(s.settings, name)
    case Some(row) =>
      var ts := seq(|s.settings|, i requires 0 <= i < |s.settings| =>
                  var t := s.settings[i];
                  if t.id != row.id then t
                  else t.(value := value, description := if Truthy(description) then description else t.description));
      Outcome(row.id, s.(settings := ts))
    case None =>
      Outcome(s.nextSettingId, s.(settings := s.settings + [Setting(s.nextSettingId, name, value, description)],
                                  nextSettingId := s.nextSettingId + 1))
  }

  /** `get_setting`: the row with this name. */
  function GetSetting(s: Store, name: string): (r: Option<Setting>)
    ensures r.None? <==> !HasSettingName(s.settings, name)
    ensures r.Some? ==> r.value in s.settings && r.value.name == name
  {
    SettingByName(s.settings, name)
  }

  /** `delete_setting`: removes the rows with this name and reports whether there were any. */
  function DeleteSetting(s: Store, name: string): (r: Outcome<bool>)
    ensures r.value <==> HasSettingName(s.settings, name)
    ensures !HasSettingName(r.store.settings, name)
    ensures forall i :: 0 <= i < |s.settings| && s.settings[i].name != name ==> s.settings[i] in r.store.settings
    ensures forall i :: 0 <= i < |r.store.settings| ==> r.store.settings[i] in s.settings
    ensures forall t :: multiset(r.store.settings)[t] == if t.name != name then multiset(s.settings)[t] else 0
    ensures r.store == s.(settings := r.store.settings)
  {
    var ts := Filter(s.settings, (t: Setting) => t.name != name);
    Outcome(|ts| < |s.settings|, s.(settings := ts))
  }
}
