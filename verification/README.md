# A model of appNG's application configuration and request processing

appNG applications are configured by XML documents: pages with sections of elements, events with actions, and
datasources that may inherit from each other. This project models, in Dafny 4.11, how such a configuration is read,
resolved, checked, copied and used, and proves what the code promises about it.

* **Datasource inheritance.** `child::parent` definitions wait on a worklist until their ancestor is registered. The
  ancestor is read (which fills in missing field bindings in place), copied, and the definition is merged into the copy
  by editing its lists. `Inheritance` is the fixpoint engine over arbitrary contents; `NamedLists`, `Fields` and
  `Datasources` are the merges and the meaning of a whole chain; `DatasourceChains` puts both together,
  `NearestDefinitions` reads the result off the definitions, `RepeatedIds` is about worklists that define an id twice.
  `FieldNodes`, `InheritanceHelper` and `DatasourceRegistry` do the same on objects, in place, and are proved equal to
  the former.
* **The provider.** `Config` and `ConfigDatasources` say what reading documents comes to and which maps agree, `FileOrder`
  that the order of the files does not matter, `Snapshots` what the serialized form holds, and `ConfigProvider` is the
  object that reads, resolves, writes and is cloned.
* **Validation.** `Runtime` is what happens to an element when its page is processed, `Validator` the checks with their
  nested loops, and `ValidatorSoundness` what acceptance is worth. `Placeholders` compares the two ways in which the
  code looks for `${name}` in a text, `ParamReferences` says what that means for the params of a reference, and
  `ReportedIssues` what stands behind every error and when there is none.
* **Actions.** `CallableActions` is the execute, redirect and re-render machine of `CallableAction`, `FormInput` and
  `FormSelections` what it keeps of a failed submission.
* **Paths.** `Paths` and `PathInfos`: splitting a request path, finding site, application and page, printing it back, and
  the search for the JSP a path starts with.
* **Sorting, paging, stylesheets.** `StableSorting` is a theory of stable multi-key sorting, `ItemSorting`, `SortedItems` and
  `Paging` are `DataContainer`; `TemplateCache` is the stylesheet cache under all interleavings of lookups, edits and time.

`Options`, `Seqs` and `JavaStrings` are the shared basics: optional values, sequence facts, and the behaviour of the
`String` and `StringUtils` methods used (splitting with trailing empty strings dropped, counting matches, white space and blank text).

The code is followed where it departs from what one would expect. Proved about it:

* `a:::b` is the id of `a` inheriting from `:b`, while `a:::` is no inheriting id (`InheritingIffTwoParts`).
* If a worklist defines an id twice and no third time, from an ancestor that is registered and not redefined, the
  definition visited last wins (`LastDefinitionWins`), so if the two differ another order gives another result
  (`RepeatedIdsDependOnOrder`). With distinct ids no order matters, neither of the worklist nor of the files.
* A snapshot of an application without root config loses default page and session params (`ClonedState`).
* Elements with an action and a datasource are validated as an action and processed as a datasource, so an application can
  be accepted and fail (`BothEscapes`). An accepted application never fails exactly if the datasources of these elements
  exist (`AcceptedRunsCleanlyIff`); without such elements acceptance and never failing are the same
  (`AcceptedIffRunsCleanly`), both with plain action ids and without shadowed actions.
* The validator looks at values that are a placeholder as a whole and strips all brackets, while at run time every `${name}`
  in a value is replaced. So `x-${p}` is accepted although there is no `p` (`EmbeddedEscapes`), and `${a}${b}` is taken
  for a param `ab` (`JoinedNames`). Acceptance means that what a value mentions is there exactly for values that mention
  nothing or one name between brackets (`AcceptanceCoversIff`).
* A path of the GUI that ends with a single output prefix, like `/manager/_x`, makes the parser run out of elements
  (`RunsOutIff`).
* A field for which nothing was submitted keeps its old selection, it is not deselected (`SelectionAfterFailure`).
* An action with errors that is forced to forward redirects and renders its form as well (`RedirectAndRender`).
* The sort direction is ignored for texts compared without regard to case (`DirectionCounts`).
* A page exists exactly if slice start plus page size fits an `int` (`PageIsSlice`).
* A stylesheet edited while it is being compiled stays unnoticed until it is too old (`EditWhileCompiling`).

`dafny verify dfyconfig.toml` checks the whole project.

## Model

| member | source | states |
|---|---|---|
| InheritanceIds.InheritingIdSplits | appng-api/src/main/java/org/appng/api/support/DatasourceInheritanceHelper.java:69-97 | an accepted id falls into two non-empty parts free of `::` that rejoin to it; neither part is itself an inheriting id |
| InheritanceIds.InheritingIffTwoParts | appng-api/src/main/java/org/appng/api/support/DatasourceInheritanceHelper.java:69-97 | exactly the ids `p::q` are accepted, awkward colons included, and `p` and `q` are the parts returned |
| NamedLists.AppendMerge | appng-api/src/main/java/org/appng/api/support/DatasourceInheritanceHelper.java:163-172 | the remove-and-append loop computes the merge whose properties follow |
| NamedLists.AppendMergeLookup | appng-api/src/main/java/org/appng/api/support/DatasourceInheritanceHelper.java:142-153 | after removing and appending, a name stands for its last definition or else the inherited one, and names stay unique |
| NamedLists.AppendMergeResult | appng-api/src/main/java/org/appng/api/support/DatasourceInheritanceHelper.java:161-173 | the merged list is the untouched inherited elements in their order, then the last definition of each name |
| NamedLists.ReplaceMerge | appng-api/src/main/java/org/appng/api/support/DatasourceInheritanceHelper.java:229-244 | the replace-at-index loop computes the merge whose properties follow |
| NamedLists.ReplaceMergeLookup | appng-api/src/main/java/org/appng/api/support/DatasourceInheritanceHelper.java:229-244 | after replacing in place, a name stands for its last definition or else the inherited one, and names stay unique |
| NamedLists.ReplaceMergeOrder | appng-api/src/main/java/org/appng/api/support/DatasourceInheritanceHelper.java:229-244 | inherited panels keep their places, new names follow in declaration order |
| Fields.BindingAt | appng-api/src/main/java/org/appng/api/support/ApplicationConfigProviderImpl.java:388-399 | at every depth a field's binding is its own, or the binding above it, a dot and its name |
| Fields.BindingIs | appng-api/src/main/java/org/appng/api/support/ApplicationConfigProviderImpl.java:388-399 | character by character: a missing binding becomes the prefix, a dot and the name, or the name alone without a prefix, and the fields below are treated alike with that binding as prefix |
| Fields.UnboundIsDotted | appng-api/src/main/java/org/appng/api/support/ApplicationConfigProviderImpl.java:388-399 | where nothing on the way down has a binding, a field at any depth is bound to the prefix and all names joined with dots |
| Fields.BindingsStick | appng-api/src/main/java/org/appng/api/support/ApplicationConfigProviderImpl.java:388-399 | once filled in, bindings stay whatever prefix they are bound with again |
| Fields.FieldsMergedLookup | appng-api/src/main/java/org/appng/api/support/DatasourceInheritanceHelper.java:183-206 | a merged field is the last definition of its name or else the inherited one, and names stay unique |
| Fields.InheritedOrderKept | appng-api/src/main/java/org/appng/api/support/DatasourceInheritanceHelper.java:187-193 | inherited fields keep their relative order, overridden or not |
| Fields.NewFieldsBeforePanel | appng-api/src/main/java/org/appng/api/support/DatasourceInheritanceHelper.java:196-204 | with a link panel field left in place, new fields form one block in declaration order directly before it |
| Fields.NewFieldsInFront | appng-api/src/main/java/org/appng/api/support/DatasourceInheritanceHelper.java:196-199 | without any link panel field, new fields form a block at the front in reverse declaration order |
| Fields.NewFieldPlaced | appng-api/src/main/java/org/appng/api/support/DatasourceInheritanceHelper.java:186-205 | for any definition, one that overrides or adds link panel fields included: a new field stands directly before the first link panel field of the list as merged so far, or in front, and later fields do not change that order |
| Datasources.BoundTwice | appng-api/src/main/java/org/appng/api/support/ApplicationConfigProviderImpl.java:375-399 | reading a datasource twice is reading it once |
| Datasources.InheritedNamesDistinct | appng-api/src/main/java/org/appng/api/support/DatasourceInheritanceHelper.java:141-244 | a step of inheritance keeps names unique in every list, even if the definition repeats one |
| Datasources.ResolvedNamesDistinct | appng-api/src/main/java/org/appng/api/support/DatasourceInheritanceHelper.java:141-244 | so does a chain of any length |
| Datasources.NearestLabelWins | appng-api/src/main/java/org/appng/api/support/DatasourceInheritanceHelper.java:141-153 | over a chain of any length a label is the one nearest to the descendant |
| Datasources.NearestParamWins | appng-api/src/main/java/org/appng/api/support/DatasourceInheritanceHelper.java:161-173 | likewise for params |
| Datasources.NearestPanelWins | appng-api/src/main/java/org/appng/api/support/DatasourceInheritanceHelper.java:229-244 | likewise for link panels |
| Datasources.NearestOptionWins | appng-api/src/main/java/org/appng/api/support/DatasourceInheritanceHelper.java:208-227 | bean options likewise, but looking no further than the nearest definition that sets a bean id |
| Datasources.NearestFieldWins | appng-api/src/main/java/org/appng/api/support/DatasourceInheritanceHelper.java:178-206 | fields likewise, each bound with the prefix in force at the level that defines it: a descendant's prefix does not touch inherited fields |
| Datasources.NearestScalarsWin | appng-api/src/main/java/org/appng/api/support/DatasourceInheritanceHelper.java:124-181 | title, description, permissions and bean id are the nearest ones set, the bind class is the definition's own |
| NearestDefinitions.BindingOfChain | appng-api/src/main/java/org/appng/api/support/DatasourceInheritanceHelper.java:178-181 | counted along the chain: the binding is that of the first definition with one that is not empty, or else the base datasource's |
| NearestDefinitions.TitleOfChain | appng-api/src/main/java/org/appng/api/support/DatasourceInheritanceHelper.java:127-134 | likewise the title, which counts if its id or its value has text |
| NearestDefinitions.DescriptionOfChain | appng-api/src/main/java/org/appng/api/support/DatasourceInheritanceHelper.java:136-140 | likewise the description |
| NearestDefinitions.PermissionsOfChain | appng-api/src/main/java/org/appng/api/support/DatasourceInheritanceHelper.java:155-159 | likewise the permissions |
| NearestDefinitions.BeanIdOfChain | appng-api/src/main/java/org/appng/api/support/DatasourceInheritanceHelper.java:208-215 | likewise the bean id, which counts if it has text |
| NearestDefinitions.LabelOfChain | appng-api/src/main/java/org/appng/api/support/DatasourceInheritanceHelper.java:141-153 | a label that no nearer definition has is in the result and alone of its id |
| NearestDefinitions.LabelOfBase | appng-api/src/main/java/org/appng/api/support/DatasourceInheritanceHelper.java:141-153 | a label that no definition has is in the result exactly if it is in the base datasource |
| NearestDefinitions.ParamOfChain | appng-api/src/main/java/org/appng/api/support/DatasourceInheritanceHelper.java:161-173 | likewise for params |
| NearestDefinitions.ParamOfBase | appng-api/src/main/java/org/appng/api/support/DatasourceInheritanceHelper.java:161-173 | likewise for params of the base datasource |
| NearestDefinitions.PanelOfChain | appng-api/src/main/java/org/appng/api/support/DatasourceInheritanceHelper.java:229-244 | likewise for link panels |
| NearestDefinitions.PanelOfBase | appng-api/src/main/java/org/appng/api/support/DatasourceInheritanceHelper.java:229-244 | likewise for link panels of the base datasource |
| NearestDefinitions.OptionOfChain | appng-api/src/main/java/org/appng/api/support/DatasourceInheritanceHelper.java:208-227 | a bean option counts unless a nearer definition has it or sets a bean id |
| NearestDefinitions.OptionsAreDropped | appng-api/src/main/java/org/appng/api/support/DatasourceInheritanceHelper.java:208-227 | behind a definition that sets a bean id all options are gone |
| NearestDefinitions.FieldOfChain | appng-api/src/main/java/org/appng/api/support/DatasourceInheritanceHelper.java:178-206 | a field that no nearer definition has is read back with the first binding set from its own definition on as prefix |
| NearestDefinitions.FieldOfBase | appng-api/src/main/java/org/appng/api/support/DatasourceInheritanceHelper.java:178-206 | a field that no definition has is read back with the base datasource's binding as prefix |
| FieldNodes.SetBindings | appng-api/src/main/java/org/appng/api/support/ApplicationConfigProviderImpl.java:388-399 | the in-place rewriting of a field tree is binding its contents |
| InheritanceHelper.MergeFields | appng-api/src/main/java/org/appng/api/support/DatasourceInheritanceHelper.java:183-206 | the in-place edits of the field list are the merge of the fields |
| InheritanceHelper.MergeConfig | appng-api/src/main/java/org/appng/api/support/DatasourceInheritanceHelper.java:121-244 | all edits of the copy together |
| InheritanceHelper.Inherit | appng-api/src/main/java/org/appng/api/support/DatasourceInheritanceHelper.java:107-246 | the fresh copy holds what definition and ancestor make together, both are left as they were, and null pointers occur exactly where a container or the bean is missing |
| Inheritance.ProcessedKeys | appng-api/src/main/java/org/appng/api/support/ApplicationConfigProviderImpl.java:206-248 | the ids in the end are exactly those with a finite chain of definitions down to a registered one; the worklist ends empty |
| Inheritance.ResolvableIsLeast | appng-api/src/main/java/org/appng/api/support/ApplicationConfigProviderImpl.java:206-248 | these ids are the least set that holds the registered ones and is closed under the definitions |
| Inheritance.EffortIsBounded | appng-api/src/main/java/org/appng/api/support/ApplicationConfigProviderImpl.java:210-246 | at most n rounds, n(n+1)/2 ancestor lookups and n merges for n definitions |
| Inheritance.EachInheritedOnce | appng-api/src/main/java/org/appng/api/support/ApplicationConfigProviderImpl.java:213-231 | each definition is inherited at most once over all rounds: those inherited, counted, are among those on the worklist |
| Inheritance.ResolvedByDepth | appng-api/src/main/java/org/appng/api/support/ApplicationConfigProviderImpl.java:210-246 | a definition at chain depth k is resolved by the end of round k |
| Inheritance.SweepStuck | appng-api/src/main/java/org/appng/api/support/ApplicationConfigProviderImpl.java:234-245 | a round without progress changed nothing, and no definition left has a registered ancestor |
| Inheritance.ProcessedMeaning | appng-api/src/main/java/org/appng/api/support/ApplicationConfigProviderImpl.java:206-248 | with distinct ids every id reads as what its chain makes of it, and an error occurs exactly if some chain fails |
| Inheritance.OrderDoesNotMatter | appng-api/src/main/java/org/appng/api/support/ApplicationConfigProviderImpl.java:206-248 | with distinct ids the order of the worklist makes no difference to what is read back |
| Inheritance.ProcessNames | appng-api/src/main/java/org/appng/api/support/ApplicationConfigProviderImpl.java:206-248 | every registered datasource keeps or gets a resource name |
| Inheritance.EverythingIsChained | appng-api/src/main/java/org/appng/api/support/ApplicationConfigProviderImpl.java:206-248 | for any worklist, ids repeated or not and failed or not: every registered datasource reads as what some chain of its definitions makes of a datasource registered before |
| DatasourceChains.FoldResolves | appng-api/src/main/java/org/appng/api/support/DatasourceInheritanceHelper.java:107-246 | folding a chain through the engine is resolving it definition by definition |
| DatasourceChains.ReadBack | appng-api/src/main/java/org/appng/api/support/ApplicationConfigProviderImpl.java:206-248 | for any worklist, every datasource read back comes from a chain down to a base datasource, and the nearest definition wins in all its lists |
| DatasourceChains.WorklistOrderDoesNotMatter | appng-api/src/main/java/org/appng/api/support/ApplicationConfigProviderImpl.java:206-248 | the datasources read back do not depend on the order of the worklist |
| DatasourceChains.RegisteredIdsAreFinal | appng-api/src/main/java/org/appng/api/support/DatasourceInheritanceHelper.java:82-97 | no id that inheritance registers is an inheriting one |
| DatasourceChains.BreaksIffMisfit | appng-api/src/main/java/org/appng/api/support/ApplicationConfigProviderImpl.java:213-222 | a null pointer ends the processing exactly if some definition resolves to a base datasource that lacks what it is merged into |
| RepeatedIds.LastDefinitionWins | appng-api/src/main/java/org/appng/api/support/ApplicationConfigProviderImpl.java:213-231 | of the definitions of an id whose ancestors are there from the start, the last on the worklist decides what the id reads as |
| RepeatedIds.RepeatedIdsDependOnOrder | appng-api/src/main/java/org/appng/api/support/ApplicationConfigProviderImpl.java:213-231 | distinct ids are needed: on any worklist, two rival definitions that make different datasources can be exchanged to change what is read |
| DatasourceRegistry.Registry.GetDatasource | appng-api/src/main/java/org/appng/api/support/ApplicationConfigProviderImpl.java:375-386 | fills in the bindings of the datasource asked for and changes no other |
| DatasourceRegistry.Registry.AddDataSource | appng-api/src/main/java/org/appng/api/support/ApplicationConfigProviderImpl.java:305-312 | registers a datasource and its resource name and changes no other |
| DatasourceRegistry.Registry.VisitDefinition | appng-api/src/main/java/org/appng/api/support/ApplicationConfigProviderImpl.java:213-231 | one definition: left, merged or failed; only the ancestor read and the datasource registered change, and the other waiting definitions stay apart from what is registered |
| DatasourceRegistry.Registry.SweepOnce | appng-api/src/main/java/org/appng/api/support/ApplicationConfigProviderImpl.java:211-231 | the inner loop on objects is one sweep of the engine, and what is left shares nothing with what is registered |
| DatasourceRegistry.Registry.ProcessInheritance | appng-api/src/main/java/org/appng/api/support/ApplicationConfigProviderImpl.java:206-248 | the loop on objects, which moves fields from definitions into registered datasources, is the engine run on their contents |
| Config.ReadConsistent | appng-api/src/main/java/org/appng/api/support/ApplicationConfigProviderImpl.java:429-483 | every document read keeps the maps in agreement: events with their indexed actions, resource names, default page |
| Config.LoadedConsistent | appng-api/src/main/java/org/appng/api/support/ApplicationConfigProviderImpl.java:159-185 | for any files the maps agree: up to the document refused, and if none is, after the inheritance was processed or failed |
| Config.LastActionWins | appng-api/src/main/java/org/appng/api/support/ApplicationConfigProviderImpl.java:322-326 | of actions with the same id the last one is indexed |
| Config.OnlyActionsIndexed | appng-api/src/main/java/org/appng/api/support/ApplicationConfigProviderImpl.java:322-326 | nothing but the event's actions is indexed, under their ids |
| Config.LastDeclarationWins | appng-api/src/main/java/org/appng/api/support/ApplicationConfigProviderImpl.java:159-185 | pages, events and their resource names are those of the last declaration over all documents, the default page is the last index page |
| ConfigDatasources.LastDatasourceWins | appng-api/src/main/java/org/appng/api/support/ApplicationConfigProviderImpl.java:457-468 | the registered datasources are the last ones declared under their ids, and the inheriting ones among the lists wait in the order read |
| ConfigDatasources.OneRootConfig | appng-api/src/main/java/org/appng/api/support/ApplicationConfigProviderImpl.java:431-450 | reading goes through exactly with at most one root config, whose session params are then those known |
| FileOrder.FileOrderDoesNotMatter | appng-api/src/main/java/org/appng/api/support/ApplicationConfigProviderImpl.java:159-185 | if no datasource id is declared twice, the files may be read in any order: they are refused alike and every datasource reads alike |
| FileOrder.FilesReadBack | appng-api/src/main/java/org/appng/api/support/ApplicationConfigProviderImpl.java:159-185 | from the files to `getDatasource`: what is returned comes from the last base datasource of its id in the files and definitions in the files, the nearest of which wins |
| Snapshots.ReadWritten | appng-api/src/main/java/org/appng/api/support/ApplicationConfigProviderImpl.java:251-303 | reading what was written restores all of it if there is a root config, and else the four maps only |
| Snapshots.ClonedState | appng-api/src/main/java/org/appng/api/support/ApplicationConfigProviderImpl.java:521-535 | what a clone of a loaded provider knows, with and without root config |
| Snapshots.ReadsCommute | appng-api/src/main/java/org/appng/api/support/ApplicationConfigProviderImpl.java:375-399 | whatever was read before, reading a datasource gives the same, so clones and originals agree |
| ConfigProvider.Provider.ReadConfig | appng-api/src/main/java/org/appng/api/support/ApplicationConfigProviderImpl.java:429-483 | a document is refused exactly if it is a second root config, else its contents are added |
| ConfigProvider.Provider.Clear | appng-api/src/main/java/org/appng/api/support/ApplicationConfigProviderImpl.java:347-355 | everything read before is dropped but worklist, resource names and snapshot; session params become an empty set |
| ConfigProvider.Provider.LoadConfig | appng-api/src/main/java/org/appng/api/support/ApplicationConfigProviderImpl.java:143-157 | loading a new provider: what is known afterwards, whether or not a document was refused or the inheritance failed |
| ConfigProvider.Provider.ReadDocuments | appng-api/src/main/java/org/appng/api/support/ApplicationConfigProviderImpl.java:159-178 | the documents are read one after the other; the first one refused ends the reading, and what was read before is kept |
| ConfigProvider.Provider.ReadResources | appng-api/src/main/java/org/appng/api/support/ApplicationConfigProviderImpl.java:159-185 | a snapshot is written exactly if no document is refused and the inheritance does not fail; otherwise what was read, or resolved so far, is kept; the registry takes up new nodes only |
| ConfigProvider.Provider.Resolve | appng-api/src/main/java/org/appng/api/support/ApplicationConfigProviderImpl.java:179-185 | the inheritance, then the snapshot unless it fails, in which case what was resolved so far is kept and nothing else changes |
| ConfigProvider.Provider.WriteData | appng-api/src/main/java/org/appng/api/support/ApplicationConfigProviderImpl.java:281-303 | the record stream holds the provider's state, which is left as it was |
| ConfigProvider.Provider.ReadData | appng-api/src/main/java/org/appng/api/support/ApplicationConfigProviderImpl.java:251-279 | the loop over the stream takes records up to the first null or the end |
| ConfigProvider.Provider.CloneConfig | appng-api/src/main/java/org/appng/api/support/ApplicationConfigProviderImpl.java:521-535 | a clone, its registry and field nodes are new objects; in development mode it is loaded from the files; otherwise its datasources are new, it keeps the stream and holds what it says, and without a stream there is none |
| ConfigProvider.ReadGenerations | appng-api/src/main/java/org/appng/api/support/ApplicationConfigProviderImpl.java:521-535 | outside of development mode an original, a clone of it and a clone of that return the same for an id, each a datasource of its own, whatever was read before |
| ConfigProvider.Provider.GetDatasource | appng-api/src/main/java/org/appng/api/support/ApplicationConfigProviderImpl.java:375-386 | returns the datasource with all bindings and changes nothing else |
| Validator.CollectReferred | appng-api/src/main/java/org/appng/api/support/ConfigValidator.java:821-829 | collects the params that values of the form `${...}` refer to |
| Validator.GetParameterMap | appng-api/src/main/java/org/appng/api/support/ConfigValidator.java:881-891 | the last param of a name counts, with its value, its default or a filler |
| Validator.ConfigValidator.CheckReferenceParameters | appng-api/src/main/java/org/appng/api/support/ConfigValidator.java:812-854 | adds the unknown and the unsupported params of a reference |
| Validator.ConfigValidator.ValidateActions | appng-api/src/main/java/org/appng/api/support/ConfigValidator.java:701-713 | the loops over events and actions add exactly the issues of all actions, in whatever order events come |
| Validator.ConfigValidator.ValidateElement | appng-api/src/main/java/org/appng/api/support/ConfigValidator.java:202-244 | the checks of a section element, and where they hit a null pointer |
| Validator.ConfigValidator.ProcessErrors | appng-api/src/main/java/org/appng/api/support/ConfigValidator.java:579-610 | throws exactly if told to and there are errors; clears them exactly if told to |
| Validator.ConfigValidator.ValidateApplication | appng-api/src/main/java/org/appng/api/support/ConfigValidator.java:174-254 | the nested loops report exactly the issues of the application, or crash exactly if some element makes them |
| ReportedIssues.CrashesIff | appng-api/src/main/java/org/appng/api/support/ConfigValidator.java:211-227 | the null pointer is hit exactly if an element's action id is the event's id, a colon and more, is registered as written and is not what `getAction` looks for |
| ReportedIssues.NoRootConfigIff | appng-api/src/main/java/org/appng/api/support/ConfigValidator.java:288-298 | a missing root config is reported exactly if there are pages |
| ReportedIssues.UnknownEventIff | appng-api/src/main/java/org/appng/api/support/ConfigValidator.java:211-215 | an unknown event is reported for a page exactly if an action on it refers to one |
| ReportedIssues.UnknownActionIff | appng-api/src/main/java/org/appng/api/support/ConfigValidator.java:216-227 | an unknown action exactly if an element refers to one its event does not have |
| ReportedIssues.UnknownDatasourceIff | appng-api/src/main/java/org/appng/api/support/ConfigValidator.java:228-244 | an unknown datasource exactly if an element without an action refers to one |
| ReportedIssues.UnknownActionDatasourceIff | appng-api/src/main/java/org/appng/api/support/ConfigValidator.java:147-172 | the same for the datasources of actions |
| ReportedIssues.NothingReportedIff | appng-api/src/main/java/org/appng/api/support/ConfigValidator.java:174-254 | nothing is reported exactly if there is a root config or no page, every reference leads somewhere, every param passed is declared and every param referred to is supplied |
| ReportedIssues.ValidateNew | appng-api/src/main/java/org/appng/api/support/ConfigValidator.java:174-254 | a new validator throws exactly if it is to and the application is not like that |
| ReportedIssues.ParamCounts | appng-api/src/main/java/org/appng/api/support/ConfigValidator.java:881-891 | of params with one name the last one counts, with its value if that has text, else its default if that has text, else a filler |
| ReportedIssues.PageParamsInOrder | appng-api/src/main/java/org/appng/api/support/ConfigValidator.java:256-274 | URL params count before GET params and those before POST params |
| ReportedIssues.BracketedIsReferred | appng-api/src/main/java/org/appng/api/support/ConfigValidator.java:821-829 | `${`, a text without brackets and line ends, and `}` refer to that text if it is not blank |
| ReportedIssues.OthersReferToNothing | appng-api/src/main/java/org/appng/api/support/ConfigValidator.java:821-829 | texts that do not start and end so, or hold a line end, refer to nothing |
| ValidatorSoundness.ValidatedElementRuns | appng-api/src/main/java/org/appng/api/support/ConfigValidator.java:174-244 | an element of an accepted application hits no unknown event, action or datasource, whatever is permitted |
| ValidatorSoundness.ValidatedActionRuns | appng-api/src/main/java/org/appng/api/support/ConfigValidator.java:147-172 | the same for an event's action called directly |
| ValidatorSoundness.AcceptedIffRunsCleanly | appng-api/src/main/java/org/appng/api/support/ConfigValidator.java:147-254 | for single-purpose elements, plain ids and unshadowed actions: accepted if and only if nothing ever fails on a lookup |
| ValidatorSoundness.AcceptedRunsCleanlyIff | appng-api/src/main/java/org/appng/api/support/ConfigValidator.java:174-254 | an accepted application never fails on a lookup exactly if every element that carries both an action and a datasource has a registered datasource |
| ValidatorSoundness.AcceptedIffFound | appng-api/src/main/java/org/appng/api/support/ConfigValidator.java:220-229 | exactly which actions the validator accepts and `getAction` finds, prefixed ids included |
| ValidatorSoundness.BothMeansDatasource | appng-core/src/main/java/org/appng/core/model/ApplicationProvider.java:613-655 | an element with both never fails exactly if its datasource exists, which the validator does not look at |
| ValidatorSoundness.BothEscapes | appng-core/src/main/java/org/appng/core/model/ApplicationProvider.java:613-655 | an accepted application that fails |
| Runtime.ActionAsWritten | appng-api/src/main/java/org/appng/api/support/ApplicationConfigProviderImpl.java:357-371 | an action is looked up under its id unless that starts with the event's id and a colon |
| Runtime.ActionBehindColon | appng-api/src/main/java/org/appng/api/support/ApplicationConfigProviderImpl.java:357-371 | behind these one more character is skipped, and the lookup fails if there is none |
| Runtime.DatasourceElementFails | appng-core/src/main/java/org/appng/core/model/ApplicationProvider.java:613-630 | an element with a datasource fails exactly if that is missing, permitted and its condition holds |
| Runtime.ActionElementFails | appng-api/src/main/java/org/appng/api/support/CallableAction.java:122-205 | when an element with only an action fails, and on what, for all permissions and conditions |
| Placeholders.ParametersAreMentioned | appng-api/src/main/java/org/appng/api/support/ParameterSupportBase.java:95-104 | the loop over the matches finds exactly the names whose placeholder occurs anywhere in the text |
| Placeholders.NameIff | appng-api/src/main/java/org/appng/api/support/ParameterSupportBase.java:42-42 | a placeholder's name is a letter, then letters, digits and underscores, by listing them |
| Placeholders.ReferredIffAlone | appng-api/src/main/java/org/appng/api/support/ConfigValidator.java:821-829 | of texts with a placeholder, the validator takes exactly those that are the placeholder between brackets and no line end to refer to its name |
| Placeholders.AcceptanceCoversIff | appng-api/src/main/java/org/appng/api/support/ConfigValidator.java:812-840 | that a value is accepted means that all it mentions is available, for every set of available params, exactly if it mentions nothing or one name between brackets |
| Placeholders.NeedlesslyRejectedIff | appng-api/src/main/java/org/appng/api/support/ConfigValidator.java:821-829 | a value whose mentioned params are all available is rejected for some set of available params exactly if stripping its brackets makes up a name it does not mention |
| Placeholders.EmbeddedEscapes | appng-api/src/main/java/org/appng/api/support/ElementHelper.java:388-396 | a placeholder behind other text is replaced at run time and accepted with no param available |
| Placeholders.JoinedNames | appng-api/src/main/java/org/appng/api/support/ElementHelper.java:388-396 | two placeholders in a row mention two names and are accepted exactly if the joined name is available |
| ParamReferences.ReferenceIssuesAreDangling | appng-api/src/main/java/org/appng/api/support/ConfigValidator.java:812-854 | exactly the params referred to and not available, and the params passed and not declared, are reported |
| ParamReferences.AcceptedReferenceCoversIff | appng-api/src/main/java/org/appng/api/support/ConfigValidator.java:812-854 | that no unknown param of a reference is reported means that all its params mention is available, exactly if every mentioned name is one that some param, the last of its name, refers to |
| ParamReferences.PageParamIsDeclared | appng-api/src/main/java/org/appng/api/support/ConfigValidator.java:256-274 | a page's params are those declared as POST, GET or URL params |
| ParamReferences.PassedParamsExist | appng-api/src/main/java/org/appng/api/support/ConfigValidator.java:812-854 | if nothing is reported, each page declares every name that a reference of any of its elements mentions, for references whose mentions are all checked, which by `AcceptedReferenceCoversIff` are exactly those for which a silent check is worth anything |
| ParamReferences.PlainParamsAreChecked | appng-api/src/main/java/org/appng/api/support/ConfigValidator.java:812-840 | the mentions of a reference are all checked if no name repeats and each value mentions nothing or one name between brackets |
| ParamReferences.ActionParamsExist | appng-api/src/main/java/org/appng/api/support/ConfigValidator.java:147-172 | the same for an action's reference to its datasource and the params of the action |
| CallableActions.CallableAction.Run | appng-api/src/main/java/org/appng/api/support/CallableAction.java:331-364 | one call of `perform`: new state and effects, thrown exceptions included |
| CallableActions.OnSuccessPath | appng-api/src/main/java/org/appng/api/support/CallableAction.java:278-289 | a target with or without leading slash is the same, and a blank one is kept and still forwards |
| CallableActions.OnSuccessIs | appng-api/src/main/java/org/appng/api/support/CallableAction.java:278-289 | where to go is the application's name and the path with params replaced and one slash in front; a blank or missing path stays |
| CallableActions.PerformOutcome | appng-api/src/main/java/org/appng/api/support/CallableAction.java:331-364 | from the inputs alone: when the action is executed, which errors remain, and exactly when the call throws |
| CallableActions.CallDecides | appng-api/src/main/java/org/appng/api/support/CallableAction.java:331-364 | from the inputs alone: exactly when a call redirects, whereto, and exactly when it renders |
| CallableActions.RedirectIff | appng-api/src/main/java/org/appng/api/support/CallableAction.java:331-364 | one redirect at most per call, exactly if executed with somewhere to go and without errors or forced |
| CallableActions.RedirectAndRender | appng-api/src/main/java/org/appng/api/support/CallableAction.java:597-603 | exactly when a call does both |
| CallableActions.StatesKeep | appng-api/src/main/java/org/appng/api/support/CallableAction.java:331-364 | over any calls the target and the inclusion stay, `execute` only falls, and without it nothing changes |
| CallableActions.ExecutedOnlyFalls | appng-api/src/main/java/org/appng/api/support/CallableAction.java:331-364 | once not to be executed, never again, and the errors stay |
| CallableActions.EffectsAllowed | appng-api/src/main/java/org/appng/api/support/CallableAction.java:331-364 | over any calls nothing is done that the constructor did not allow |
| CallableActions.RedirectsFollowExecutions | appng-api/src/main/java/org/appng/api/support/CallableAction.java:331-350 | every redirect follows an execution |
| CallableActions.DeniedDoesNothing | appng-api/src/main/java/org/appng/api/support/CallableAction.java:122-145 | a denied event, reference or action permission leaves nothing to run |
| CallableActions.FirstCall | appng-api/src/main/java/org/appng/api/support/CallableAction.java:122-205 | from the conditions of a permitted action to the effects of the first call: when it is executed, when its form is shown, and whereto it redirects |
| CallableActions.FirstCallDenied | appng-api/src/main/java/org/appng/api/support/CallableAction.java:122-145 | without one of the three permissions the first call does nothing |
| FormInput.RecordedIsPreorder | appng-api/src/main/java/org/appng/api/support/CallableAction.java:530-552 | the recorded input is the pre-order list of the values of fields that are no passwords and writable with all their ancestors |
| FormInput.RecordedForField | appng-api/src/main/java/org/appng/api/support/CallableAction.java:530-552 | with distinct bindings, what is recorded for a field is what was submitted for it if it is open, and nothing otherwise |
| FormInput.WritableIff | appng-api/src/main/java/org/appng/api/support/CallableAction.java:530-552 | a field is read-only exactly if the attribute is `true` in any case |
| FormSelections.UserData.AddFields | appng-api/src/main/java/org/appng/api/support/CallableAction.java:530-552 | the recursive appending to the list records just that |
| FormSelections.SelectValues | appng-api/src/main/java/org/appng/api/support/CallableAction.java:640-650 | deselecting all options and selecting by value, groups included, selects exactly the options with a submitted value |
| FormSelections.HandleSelections | appng-api/src/main/java/org/appng/api/support/CallableAction.java:615-654 | in place, every option ends as the last field that touches it decides; options no field touches stay |
| FormSelections.LastSelectionFound | appng-api/src/main/java/org/appng/api/support/CallableAction.java:619-625 | of selections with one id the last one is handled |
| FormSelections.SelectionAfterFailure | appng-api/src/main/java/org/appng/api/support/CallableAction.java:522-669 | after a failed submission an option is selected iff its value was submitted for its field, if the field is open and anything was submitted |
| FormSelections.OtherSelectionsUntouched | appng-api/src/main/java/org/appng/api/support/CallableAction.java:615-654 | all other selections are left alone |
| Paths.GuiPathIsParsed | appng-api/src/main/java/org/appng/api/PathInfo.java:133-151 | a path of the form root, up to two prefixes, site, application, page, params is parsed accordingly |
| Paths.ParsedIsGuiPath | appng-api/src/main/java/org/appng/api/PathInfo.java:133-151 | whatever is parsed down to a page has that form |
| Paths.RunsOutIff | appng-api/src/main/java/org/appng/api/PathInfo.java:133-151 | parsing runs out of elements exactly on GUI paths that end with a single prefix behind the GUI's name |
| Paths.ServicePathIsParsed | appng-api/src/main/java/org/appng/api/PathInfo.java:152-160 | a service path names service, site and application, as far as there are any |
| Paths.ElementsRejoin | appng-api/src/main/java/org/appng/api/PathInfo.java:163-175 | the elements rejoin to the path exactly if it has no slash and no anchor at its end |
| Paths.SplitStrips | appng-api/src/main/java/org/appng/api/PathInfo.java:489-499 | splitting and joining strips the slashes at the end and nothing else |
| Paths.AnchorIsCut | appng-api/src/main/java/org/appng/api/PathInfo.java:163-175 | of the last element what follows the first `#` is cut off with it, unless the element starts with it |
| Paths.SelectedIffPathPrefix | appng-api/src/main/java/org/appng/api/PathInfo.java:433-444 | a path is selected iff it is the request's path or is followed by a slash in it |
| Paths.ShortestJspFound | appng-api/src/main/java/org/appng/api/PathInfo.java:298-311 | against any files, the shortest prefix with a JSP is found and rebuilds the path with the params; without one the whole path is returned |
| Paths.JspFileIs | appng-api/src/main/java/org/appng/api/PathInfo.java:303-303 | the file looked for is the path, a dot and the extension |
| PathInfos.PathInfo.ParsePath | appng-api/src/main/java/org/appng/api/PathInfo.java:122-161 | the positions found, in agreement with the queries; it throws exactly on GUI paths that end with a single prefix |
| PathInfos.PathInfo.SetApplicationName | appng-api/src/main/java/org/appng/api/PathInfo.java:236-240 | resets the page position and keeps positions and names in agreement |
| PathInfos.PathInfo.SetPage | appng-api/src/main/java/org/appng/api/PathInfo.java:261-264 | keeps positions and names in agreement |
| PathInfos.PathInfo.SetNamesCount | appng-api/src/main/java/org/appng/api/PathInfo.java:242-271 | in any state a name that was set counts before the one in the path |
| PathInfos.PathInfo.IsPathSelected | appng-api/src/main/java/org/appng/api/PathInfo.java:433-444 | the loop decides whether the path's elements are a prefix of the request's |
| PathInfos.PathInfo.InitJspUrlParameters | appng-api/src/main/java/org/appng/api/PathInfo.java:298-311 | the loop finds that JSP; without one the stored params stay |
| PathInfos.PathInfo.UrlParametersFollowPage | appng-api/src/main/java/org/appng/api/PathInfo.java:313-322 | in every state reached by parsing and the setters the URL params are what follows the page named by the queries |
| PathInfos.PathInfo.UrlParametersAreSuffix | appng-api/src/main/java/org/appng/api/PathInfo.java:313-322 | in any state they are the end of the path, for services too |
| PathInfos.PathInfo.ParsedServicePath | appng-api/src/main/java/org/appng/api/PathInfo.java:313-322 | site, application, page and URL params of a service path by its elements |
| PathInfos.PathInfo.GuiRoundTrip | appng-api/src/main/java/org/appng/api/PathInfo.java:395-455 | root path, output prefix, site, application, page and params print back to the path, exactly if it ends with neither a slash nor an anchor |
| StableSorting.StableSortIsUnique | appng-api/src/main/java/org/appng/api/DataContainer.java:187-221 | there is only one stable sort of a list, so any implementation yields it |
| StableSorting.SortByTwoKeys | appng-api/src/main/java/org/appng/api/DataContainer.java:187-221 | sorting by two keys is sorting by the second and then, stably, by the first |
| StableSorting.ChainSortsOneByOne | appng-api/src/main/java/org/appng/api/DataContainer.java:187-221 | sorting by a chain is sorting by one key after the other, the last one first |
| ItemSorting.ItemOrderIsPreorder | appng-api/src/main/java/org/appng/api/DataContainer.java:196-216 | the order of a key is total and transitive, nulls, directions and case folding included |
| ItemSorting.OrderOfValues | appng-api/src/main/java/org/appng/api/DataContainer.java:196-216 | ascending is smaller numbers, earlier texts and nulls first, descending the reverse, but for texts without regard to case |
| ItemSorting.TextsAsInDictionary | appng-api/src/main/java/org/appng/api/DataContainer.java:203-206 | texts compare like in a dictionary |
| ItemSorting.CompareIsOrder | appng-api/src/main/java/org/appng/api/DataContainer.java:196-216 | on values null or of one type the comparator does not throw and is that order |
| ItemSorting.SortsOneKeyAfterTheOther | appng-api/src/main/java/org/appng/api/DataContainer.java:187-221 | on such columns the result is a stable sorted permutation, the one that single-key sorts yield |
| SortedItems.SortedByValues | appng-api/src/main/java/org/appng/api/DataContainer.java:187-221 | read off the items of the result: the first key on which two disagree decides, by numbers, by texts, missing values first, and the other way round if it is descending |
| ItemSorting.DirectionCounts | appng-api/src/main/java/org/appng/api/DataContainer.java:202-213 | the direction inverts every comparison but that of texts without regard to case |
| Paging.PageIsSlice | appng-api/src/main/java/org/appng/api/DataContainer.java:168-185 | a page exists exactly without `int` overflow, starts at number times size, totals the items; out of range it is page 0 |
| Paging.PagesAreTheList | appng-api/src/main/java/org/appng/api/DataContainer.java:173-178 | all pages together are exactly the list |
| Paging.NeverInvalid | appng-api/src/main/java/org/appng/api/support/CallableDataSource.java:229-239 | containers filled this way never cause the redirect for an invalid page |
| Paging.InvalidIff | appng-api/src/main/java/org/appng/api/support/CallableDataSource.java:229-239 | a page is out of range exactly if there are items and it would start behind them |
| Paging.DataContainer.SetPage | appng-api/src/main/java/org/appng/api/DataContainer.java:168-185 | sorts, cuts out that page and makes it current, or throws and changes nothing |
| TemplateCache.Adapter.GetTemplate | appng-taglib/src/main/java/org/appng/taglib/ApplicationAdapter.java:405-417 | what is returned is cached from then on beside the rest, and is new from the file or was there, young enough and wrapped since the file was modified |
| TemplateCache.ChecksAlone | appng-taglib/src/main/java/org/appng/taglib/ApplicationAdapter.java:405-417 | the separate steps of an undisturbed lookup decide like `getTemplate` |
| TemplateCache.CompileAlone | appng-taglib/src/main/java/org/appng/taglib/ApplicationAdapter.java:405-417 | an undisturbed thread that compiles and stores leaves the cache as `getTemplate` does |
| TemplateCache.StepKeepsInvariant | appng-taglib/src/main/java/org/appng/taglib/ApplicationAdapter.java:405-430 | no step of any thread loses track of the edits made since a file was read |
| TemplateCache.ReturnedTemplateIsFresh | appng-taglib/src/main/java/org/appng/taglib/ApplicationAdapter.java:405-430 | over any interleaving, with cache, file and clock looked at in separate steps, a template returned from the cache is young enough and one returned after compiling is stamped now; either is stale only if the last edit fell between reading the file and stamping or, from the cache, after the look at the file |
| TemplateCache.ReturnEnds | appng-taglib/src/main/java/org/appng/taglib/ApplicationAdapter.java:405-417 | a thread that returns is done; what it returns after compiling is what it caches, and returning from the cache changes nothing |
| TemplateCache.EditWhileCompiling | appng-taglib/src/main/java/org/appng/taglib/ApplicationAdapter.java:405-430 | the first of these exceptions is real, for any thread that compiles |
| TemplateCache.EditAfterCheck | appng-taglib/src/main/java/org/appng/taglib/ApplicationAdapter.java:405-417 | so is the second: a file edited after its time was looked at does not keep the thread from returning the old template |

## Left out

- Marshalling is a total deep copy: `marshalNonRoot` followed by `unmarshall` yields a new datasource with equal contents, and `inherit`'s `null` on a `JAXBException` does not occur.
- Datasources have a config and a meta-data element, fields have a name and a type, and labels, params, options and panels have an id; a null in their place is not modelled.
- A list merged by name holds unique names in the base datasource; definitions may repeat names.
- The snapshot's bytes are a sequence of tagged records; object identity inside them (an action shared by its event and the index) is not modelled. Empty maps stand for the null fields of a provider that was not read yet, in particular for the resource map of a clone, which the code leaves null.
- The validation that ends the loading in development mode, `close`, class loaders and the platform documents are left out. That the datasources of a clone made in development mode are new objects is stated for their field nodes only.
- A root config without `config`, `session` or `session-params`, on which `readConfig` hits a null pointer after it has set `rootConfig`: a `RootConfig` always has them.
- RepeatedIds.RepeatedIdsDependOnOrder: shows that the order matters for two rivals with one ancestor; with distinct ids it never matters (`WorklistOrderDoesNotMatter`). An exact condition for all worklists that repeat ids is not given.
- The wording of the validator's messages, its detailed errors and warnings, and its checks of conditions, permissions, link panels, bind classes and bean options: they depend on EL, reflection and files, and add checks that do not refer to events, actions or datasources.
- Validator.ConfigValidator.ValidateActions: does not model the checks of an action's permissions, condition and bean options, for that reason.
- Validator.ConfigValidator.ValidateElement: does not model the checks of an element's expressions, condition, permissions and bean options, for that reason.
- Validator.ConfigValidator.ValidateApplication: the errors it throws for are those of the checks modelled; in the code the others make it throw as well.
- ParamReferences.PassedParamsExist is about the names a value mentions; the values that replace them, a later param of the same name, and the POST params that are added are not part of this model.
- Config.Consistent does not cover `setDefaultPage` and `setSessionParams`, which callers may use to break it.
- Runtime.Access takes the answers of the permission processor and of conditions as arbitrary; `ElementHelper` and `FieldProcessorImpl` are not part of this model.
- CallableActions.CallableAction.Execute: the asynchronous branch, in which the bean runs on another thread and its errors are not seen, is not modelled; neither are the messages that `perform` moves around.
- FormInput.RecordedIsPreorder takes the list of fields that `getFilteredMetaData` yields as given.
- `compareToIgnoreCase` folds letters by a parameter, as Unicode tables are not part of this model; letters in `readonly` are folded for ASCII, which is all that can equal `true`.
- ItemSorting.Value: numbers and texts; other comparable types of properties, like dates and booleans, have no counterpart.
- ItemSorting.DoSort: what happens if a column mixes comparable types, where the comparator may throw depending on which items the library compares, is not modelled; `compareTo` of numbers yields -1, 0 or 1, so its product with the direction does not overflow.
- ItemSorting.TextsAsInDictionary: texts are sequences of Unicode scalar values; Java compares UTF-16 units, which differs for characters above U+FFFF.
- `DataContainer.setItem` and `setItems` without paging, which only set a field, are left out.
- `PageRequest` and `PageImpl` of Spring Data are modelled by their documented behaviour; fewer than 2^31 items.
- `PathInfo`: services and repositories beyond their positions and URL params, the current path, and host and domain, which are reads of fields.
- PathInfos.PathInfo.GuiRoundTrip assumes a GUI path property of more than one character, as `substring(1)` of it names the root element.
- TemplateCache.ReturnedTemplateIsFresh assumes that an edit stamps the file with the current time; files are not deleted, and reading a file is one step.
