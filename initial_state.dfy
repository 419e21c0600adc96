/** The default shape of the persisted state (`constants/initialState.ts`),
    which the store starts from and a loaded state file is merged over. */
module Constants {
  import opened JsValue

  const InitialState: Value := Obj(map[
    "stateVersion" := Str("1"),
    "projectView" := Obj(map[
      "name" := Str(""),
      "description" := Str(""),
      "language" := Str(""),
      "framework" := Str(""),
      "tools" := Arr([]),
      "aiModel" := Str(""),
      "codingStandards" := Str("")
    ]),
    "settingsView" := Obj(map["standards" := Obj(map[])]),
    "testView" := Obj(map["tests" := Arr([])])
  ])
}
