/**
 The query structure builder as an object (compiler/query_structure.rs,
 `ParametrisedQueryStructureBuilder`): it grows a vector of conjunctions and a list of stages in place.
 */
module QueryStructureBuilder {
  import opened Options
  import opened QueryStructure

  class StructureBuilder<T> {
    var conjunctions: Arena<T>
    var stages: seq<StageRef>

    /* Entries are set aside for the branch ids already given out. */
    constructor (branchIdsAllocated: nat, nothing: T)
      ensures conjunctions == NewArena(branchIdsAllocated, nothing) && stages == []
    {
      conjunctions := seq(branchIdsAllocated, i => Entry(nothing, []));
      stages := [];
    }

    method AddConjunctionToStructure(existingBranchId: Option<nat>, entry: Entry<T>) returns (id: nat)
      modifies this`conjunctions
      ensures Added(conjunctions, id) == Place(old(conjunctions), existingBranchId, entry)
    {
      match existingBranchId {
        case Some(branch) =>
          if branch < |conjunctions| {
            conjunctions := conjunctions[branch := entry];
          }
          id := branch;
        case None =>
          conjunctions := conjunctions + [entry];
          id := LastId(|conjunctions|);
      }
    }

    method AddConjunction(existingBranchId: Option<nat>, c: Conjunction<T>) returns (id: nat)
      modifies this`conjunctions
      ensures Added(conjunctions, id) == Add(old(conjunctions), existingBranchId, c)
      decreases c
    {
      var nested := AddNestedPatterns(c.nested);
      id := AddConjunctionToStructure(existingBranchId, Entry(c.constraints, nested));
    }

    method AddNestedPatterns(patterns: Patterns<T>) returns (nested: seq<Reference>)
      modifies this`conjunctions
      ensures Added(conjunctions, nested) == AddPatterns(old(conjunctions), patterns)
      decreases patterns
    {
      match patterns {
        case Done =>
          nested := [];
        case Or(branches, rest) =>
          var ids := AddDisjunction(branches);
          var later := AddNestedPatterns(rest);
          nested := [OrRef(ids)] + later;
        case Not(inner, rest) =>
          var id := AddConjunction(None, inner);
          var later := AddNestedPatterns(rest);
          nested := [NotRef(id)] + later;
        case Try(branch, inner, rest) =>
          var id := AddConjunction(Some(branch), inner);
          var later := AddNestedPatterns(rest);
          nested := [TryRef(id)] + later;
      }
    }

    method AddDisjunction(branches: Branches<T>) returns (ids: seq<nat>)
      modifies this`conjunctions
      ensures Added(conjunctions, ids) == AddBranches(old(conjunctions), branches)
      decreases branches
    {
      match branches {
        case NoBranch =>
          ids := [];
        case Branch(branch, inner, rest) =>
          var id := AddConjunction(Some(branch), inner);
          var later := AddDisjunction(rest);
          ids := [id] + later;
      }
    }

    method AddStage(stage: Stage<T>)
      modifies this
      ensures match stage
              case Plain(text) => conjunctions == old(conjunctions) && stages == old(stages) + [PlainRef(text)]
              case Block(kind, block) =>
                var added := Add(old(conjunctions), None, block);
                conjunctions == added.arena && stages == old(stages) + [BlockRef(kind, added.result)]
    {
      match stage {
        case Plain(text) =>
          stages := stages + [PlainRef(text)];
        case Block(kind, block) =>
          var id := AddConjunction(None, block);
          stages := stages + [BlockRef(kind, id)];
      }
    }

    method AddStages(pipeline: seq<Stage<T>>)
      requires stages == []
      modifies this
      ensures Added(conjunctions, stages) == Build(old(conjunctions), pipeline)
    {
      for i := 0 to |pipeline|
        invariant Added(conjunctions, stages) == Build(old(conjunctions), pipeline[..i])
      {
        assert pipeline[..i + 1][..i] == pipeline[..i];
        AddStage(pipeline[i]);
      }
      assert pipeline[..|pipeline|] == pipeline;
    }
  }
}
