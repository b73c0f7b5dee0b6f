/** The application's state: the list of projects, each holding its schedules,
    staff members and actors, and the identifier of the project whose detail view
    is open. Every form handler and delete button is a method of the store that
    changes the list it is about and nothing else. A handler that finds no open
    project does nothing. Identifiers that the clock would supply (`Date.now()`)
    and the creation timestamp are parameters; the confirmation dialog in front of
    each delete is taken as answered "yes". */
module Store {
  import opened Lists
  import opened Records

  /** The values read from the project form. */
  datatype ProjectForm = ProjectForm(name: string, description: string, startDate: string, endDate: string)

  class Project {
    const id: string
    var name: string
    var description: string
    var startDate: string
    var endDate: string
    var createdAt: string
    var schedules: seq<Schedule>
    var staff: seq<Staff>
    var actors: seq<Actor>

    /** A new project: the form's values and empty lists. */
    constructor (id: string, f: ProjectForm, createdAt: string)
      ensures this.id == id && name == f.name && description == f.description
      ensures startDate == f.startDate && endDate == f.endDate && this.createdAt == createdAt
      ensures schedules == [] && staff == [] && actors == []
    {
      this.id := id;
      name := f.name;
      description := f.description;
      startDate := f.startDate;
      endDate := f.endDate;
      this.createdAt := createdAt;
      schedules := [];
      staff := [];
      actors := [];
    }
  }

  function ProjectId(p: Project): string { p.id }

  class ProjectStore {
    var projects: seq<Project>
    var currentProjectId: Option<string>

    constructor (projects: seq<Project>)
      ensures this.projects == projects && currentProjectId == None
    {
      this.projects := projects;
      currentProjectId := None;
    }

    /** `projects.find(p => p.id === currentProjectId)`. */
    function CurrentProject(): (r: Option<Project>)
      reads this
      ensures r.Some? ==> r.value in projects && Some(r.value.id) == currentProjectId
      ensures currentProjectId.None? ==> r.None?
      ensures r.None? ==> currentProjectId.None? || forall p | p in projects :: p.id != currentProjectId.value
    {
      if currentProjectId.None? then None else FindById(projects, ProjectId, currentProjectId.value)
    }

    /** openProjectDetail: the identifier is recorded even when no project has it. */
    method OpenProject(id: string)
      modifies this
      ensures projects == old(projects) && currentProjectId == Some(id)
    {
      currentProjectId := Some(id);
    }

    // ------------------------------------------------------------ projects

    /** handleProjectSubmit as written: whatever the form's hidden identifier
        `formId` holds, a new project with the fresh identifier is appended and
        no existing project changes. */
    method SubmitProject(formId: string, freshId: string, f: ProjectForm, createdAt: string)
      modifies this
      ensures |projects| == |old(projects)| + 1 && projects[..|old(projects)|] == old(projects)
      ensures var p := projects[|old(projects)|];
        fresh(p) && p.id == freshId && p.name == f.name && p.description == f.description &&
        p.startDate == f.startDate && p.endDate == f.endDate && p.createdAt == createdAt &&
        p.schedules == [] && p.staff == [] && p.actors == []
      ensures currentProjectId == old(currentProjectId)
    {
      var p := new Project(freshId, f, createdAt);
      projects := projects + [p];
    }

    /** The save the project form evidently means, since editProject fills its
        hidden identifier: with an identifier, the project holding it takes the
        form's name, description and dates and keeps its records (nothing happens
        when no project holds it); without one, a new project is appended. */
    method SaveProject(formId: string, freshId: string, f: ProjectForm, createdAt: string)
      modifies this, (set q | q in projects)`name, (set q | q in projects)`description
      modifies (set q | q in projects)`startDate, (set q | q in projects)`endDate
      ensures currentProjectId == old(currentProjectId)
      ensures formId != "" ==> projects == old(projects)
      ensures formId != "" ==> match old(FindById(projects, ProjectId, formId))
        case None =>
          forall q | q in projects ::
            (q.name == old(q.name) && q.description == old(q.description) &&
             q.startDate == old(q.startDate) && q.endDate == old(q.endDate))
        case Some(p) =>
          p.name == f.name && p.description == f.description &&
          p.startDate == f.startDate && p.endDate == f.endDate &&
          forall q | q in projects && q != p ::
            (q.name == old(q.name) && q.description == old(q.description) &&
             q.startDate == old(q.startDate) && q.endDate == old(q.endDate))
      ensures formId == "" ==>
        |projects| == |old(projects)| + 1 && projects[..|old(projects)|] == old(projects) &&
        var p := projects[|old(projects)|];
        fresh(p) && p.id == freshId && p.name == f.name && p.description == f.description &&
        p.startDate == f.startDate && p.endDate == f.endDate && p.createdAt == createdAt &&
        p.schedules == [] && p.staff == [] && p.actors == []
      ensures formId == "" ==>
        forall q | q in old(projects) ::
          (q.name == old(q.name) && q.description == old(q.description) &&
           q.startDate == old(q.startDate) && q.endDate == old(q.endDate))
    {
      if formId != "" {
        var found := FindById(projects, ProjectId, formId);
        if found.Some? {
          var p := found.value;
          p.name := f.name;
          p.description := f.description;
          p.startDate := f.startDate;
          p.endDate := f.endDate;
        }
      } else {
        var p := new Project(freshId, f, createdAt);
        projects := projects + [p];
      }
    }

    /** deleteProject: an unknown identifier changes nothing; otherwise every
        project holding it goes, and the detail view closes when it showed that
        project. */
    method DeleteProject(id: string)
      modifies this
      ensures FindById(projects, ProjectId, id) == None
      ensures FindById(old(projects), ProjectId, id) == None ==>
        projects == old(projects) && currentProjectId == old(currentProjectId)
      ensures FindById(old(projects), ProjectId, id) != None ==>
        projects == RemoveById(old(projects), ProjectId, id) &&
        currentProjectId == (if old(currentProjectId) == Some(id) then None else old(currentProjectId))
    {
      var found := FindById(projects, ProjectId, id);
      if found.Some? {
        projects := RemoveById(projects, ProjectId, id);
        FindAfterRemove(old(projects), ProjectId, id);
        if currentProjectId == Some(id) {
          currentProjectId := None;
        }
      }
    }

    // ------------------------------------------------------------ schedules

    /** handleScheduleSubmit: the open project's schedule list gets the saved
        schedule (replacing the one with the form's identifier, or appended). */
    method SubmitSchedule(formId: string, freshId: string, f: ScheduleForm)
      modifies (set p | p in projects)`schedules
      ensures CurrentProject().Some? ==>
        CurrentProject().value.schedules ==
          Upsert(old(CurrentProject().value.schedules), ScheduleId, formId, NewSchedule(formId, freshId, f))
      ensures forall p | p in projects && Some(p) != CurrentProject() :: p.schedules == old(p.schedules)
    {
      var current := CurrentProject();
      if current.Some? {
        var project := current.value;
        var schedule := NewSchedule(formId, freshId, f);
        if formId != "" {
          var index := IndexOfId(project.schedules, ScheduleId, formId);
          if index != -1 {
            project.schedules := project.schedules[index := schedule];
          }
        } else {
          project.schedules := project.schedules + [schedule];
        }
      }
    }

    /** deleteSchedule: the open project's schedules lose every one with `id`. */
    method DeleteSchedule(id: string)
      modifies (set p | p in projects)`schedules
      ensures CurrentProject().Some? ==>
        CurrentProject().value.schedules == RemoveById(old(CurrentProject().value.schedules), ScheduleId, id)
      ensures forall p | p in projects && Some(p) != CurrentProject() :: p.schedules == old(p.schedules)
    {
      var current := CurrentProject();
      if current.Some? {
        var project := current.value;
        project.schedules := RemoveById(project.schedules, ScheduleId, id);
      }
    }

    // ------------------------------------------------------------ staff

    /** handleStaffSubmit: the open project's staff list gets the saved member. */
    method SubmitStaff(formId: string, freshId: string, f: PersonForm)
      modifies (set p | p in projects)`staff
      ensures CurrentProject().Some? ==>
        CurrentProject().value.staff ==
          Upsert(old(CurrentProject().value.staff), StaffId, formId, NewStaff(formId, freshId, f))
      ensures forall p | p in projects && Some(p) != CurrentProject() :: p.staff == old(p.staff)
    {
      var current := CurrentProject();
      if current.Some? {
        var project := current.value;
        var member := NewStaff(formId, freshId, f);
        if formId != "" {
          var index := IndexOfId(project.staff, StaffId, formId);
          if index != -1 {
            project.staff := project.staff[index := member];
          }
        } else {
          project.staff := project.staff + [member];
        }
      }
    }

    /** deleteStaff: the open project's staff lose every member with `id`. */
    method DeleteStaff(id: string)
      modifies (set p | p in projects)`staff
      ensures CurrentProject().Some? ==>
        CurrentProject().value.staff == RemoveById(old(CurrentProject().value.staff), StaffId, id)
      ensures forall p | p in projects && Some(p) != CurrentProject() :: p.staff == old(p.staff)
    {
      var current := CurrentProject();
      if current.Some? {
        var project := current.value;
        project.staff := RemoveById(project.staff, StaffId, id);
      }
    }

    // ------------------------------------------------------------ actors

    /** handleActorSubmit with createOrUpdateActor: `upload` is the data URL the
        file reader produced, or None when no file was chosen. The existing actor
        is looked up before the save, the image rule picks the stored image, and
        the actor is saved like the other records. */
    method SubmitActor(formId: string, freshId: string, f: PersonForm, upload: Option<string>)
      modifies (set p | p in projects)`actors
      ensures CurrentProject().Some? ==>
        CurrentProject().value.actors ==
          Upsert(old(CurrentProject().value.actors), ActorId, formId,
                 SubmittedActor(old(CurrentProject().value.actors), formId, freshId, f, upload))
      ensures forall p | p in projects && Some(p) != CurrentProject() :: p.actors == old(p.actors)
    {
      var current := CurrentProject();
      if current.Some? {
        var project := current.value;
        var existing := if formId != "" then FindById(project.actors, ActorId, formId) else None;
        var imageData := ImageArgument(upload, existing);
        var actor := NewActor(formId, freshId, f, StoredImage(imageData, existing));
        if formId != "" {
          var index := IndexOfId(project.actors, ActorId, formId);
          if index != -1 {
            project.actors := project.actors[index := actor];
          }
        } else {
          project.actors := project.actors + [actor];
        }
      }
    }

    /** deleteActor: the open project's actors lose every one with `id`. */
    method DeleteActor(id: string)
      modifies (set p | p in projects)`actors
      ensures CurrentProject().Some? ==>
        CurrentProject().value.actors == RemoveById(old(CurrentProject().value.actors), ActorId, id)
      ensures forall p | p in projects && Some(p) != CurrentProject() :: p.actors == old(p.actors)
    {
      var current := CurrentProject();
      if current.Some? {
        var project := current.value;
        project.actors := RemoveById(project.actors, ActorId, id);
      }
    }
  }

  /** Editing a project as written: the form carries the project's identifier,
      but the submit appends a second project and the edited one keeps its old
      name, so a new name never reaches it. */
  method EditProjectAsWritten(store: ProjectStore, id: string, freshId: string, f: ProjectForm,
                              createdAt: string)
    requires FindById(store.projects, ProjectId, id).Some?
    requires f.name != FindById(store.projects, ProjectId, id).value.name
    modifies store
    ensures |store.projects| == |old(store.projects)| + 1
    ensures var p := old(FindById(store.projects, ProjectId, id)).value;
      p in store.projects && p.name == old(p.name) && p.name != f.name
  {
    store.SubmitProject(id, freshId, f, createdAt);
    assert old(FindById(store.projects, ProjectId, id)).value in old(store.projects);
  }

  /** Editing a project with the corrected save: the list keeps its length and
      the edited project takes the form's values. */
  method EditProjectCorrected(store: ProjectStore, id: string, freshId: string, f: ProjectForm,
                              createdAt: string)
    requires id != ""
    requires FindById(store.projects, ProjectId, id).Some?
    modifies store, store.projects
    ensures |store.projects| == |old(store.projects)|
    ensures var p := old(FindById(store.projects, ProjectId, id)).value;
      p in store.projects && p.name == f.name && p.description == f.description &&
      p.startDate == f.startDate && p.endDate == f.endDate
  {
    store.SaveProject(id, freshId, f, createdAt);
  }

  // ------------------------------------------------------------ record lists

  /** Saving a schedule keeps the list's identifiers unique and makes the saved
      schedule the one found under its identifier, when the edited identifier is
      present or the fresh one is unused. */
  lemma SaveScheduleKeepsIds(list: seq<Schedule>, formId: string, freshId: string, f: ScheduleForm)
    requires UniqueIds(list, ScheduleId)
    requires formId != "" ==> IndexOfId(list, ScheduleId, formId) != -1
    requires formId == "" ==> IndexOfId(list, ScheduleId, freshId) == -1
    ensures UniqueIds(Upsert(list, ScheduleId, formId, NewSchedule(formId, freshId, f)), ScheduleId)
    ensures FindById(Upsert(list, ScheduleId, formId, NewSchedule(formId, freshId, f)), ScheduleId,
                     RecordId(formId, freshId)) == Some(NewSchedule(formId, freshId, f))
  {
    UpsertKeepsUniqueIds(list, ScheduleId, formId, NewSchedule(formId, freshId, f));
    FindAfterUpsert(list, ScheduleId, formId, NewSchedule(formId, freshId, f));
  }

  /** The same for a staff member. */
  lemma SaveStaffKeepsIds(list: seq<Staff>, formId: string, freshId: string, f: PersonForm)
    requires UniqueIds(list, StaffId)
    requires formId != "" ==> IndexOfId(list, StaffId, formId) != -1
    requires formId == "" ==> IndexOfId(list, StaffId, freshId) == -1
    ensures UniqueIds(Upsert(list, StaffId, formId, NewStaff(formId, freshId, f)), StaffId)
    ensures FindById(Upsert(list, StaffId, formId, NewStaff(formId, freshId, f)), StaffId,
                     RecordId(formId, freshId)) == Some(NewStaff(formId, freshId, f))
  {
    UpsertKeepsUniqueIds(list, StaffId, formId, NewStaff(formId, freshId, f));
    FindAfterUpsert(list, StaffId, formId, NewStaff(formId, freshId, f));
  }

  /** The same for an actor, whatever image the image rule picks. */
  lemma SaveActorKeepsIds(list: seq<Actor>, formId: string, freshId: string, f: PersonForm,
                          upload: Option<string>)
    requires UniqueIds(list, ActorId)
    requires formId != "" ==> IndexOfId(list, ActorId, formId) != -1
    requires formId == "" ==> IndexOfId(list, ActorId, freshId) == -1
    ensures var a := SubmittedActor(list, formId, freshId, f, upload);
      UniqueIds(Upsert(list, ActorId, formId, a), ActorId) &&
      FindById(Upsert(list, ActorId, formId, a), ActorId, RecordId(formId, freshId)) == Some(a)
  {
    var a := SubmittedActor(list, formId, freshId, f, upload);
    UpsertKeepsUniqueIds(list, ActorId, formId, a);
    FindAfterUpsert(list, ActorId, formId, a);
  }

  /** Editing with an identifier no record holds leaves the list unchanged. */
  lemma EditOfMissingIdChangesNothing<T>(list: seq<T>, key: T -> string, formId: string, x: T)
    requires formId != "" && IndexOfId(list, key, formId) == -1
    ensures Upsert(list, key, formId, x) == list
  {
  }

  /** Deleting keeps the identifiers unique, removes exactly the records with the
      identifier, and afterwards nothing is found under it. */
  lemma DeleteRecordFacts<T>(list: seq<T>, key: T -> string, id: string)
    requires UniqueIds(list, key)
    ensures UniqueIds(RemoveById(list, key, id), key)
    ensures FindById(RemoveById(list, key, id), key, id) == None
    ensures |RemoveById(list, key, id)| == |list| - (if IndexOfId(list, key, id) == -1 then 0 else 1)
  {
    RemoveKeepsUniqueIds(list, key, id);
    FindAfterRemove(list, key, id);
    RemoveLength(list, key, id);
  }
}
